/** The renderer: a condition tree becomes a SQL statement and its argument list, with constants folded away. A
    functional description of the output, and the renderer object that produces it. */
module FilterRender {
  import opened Wrappers
  import opened Like
  import opened FilterIr
  import opened FilterSql

  /** `sql` is blank when the result is trivially true. */
  datatype RenderResult = RenderResult(sql: Sql, trivial: bool, unsatisfiable: bool)

  datatype Rendered = Rendered(res: RenderResult, args: seq<Value>)

  function Plain(sql: Sql): RenderResult { RenderResult(sql, false, false) }

  const TRIVIAL := RenderResult(Blank, true, false)
  const UNSATISFIABLE := RenderResult(Never, false, true)

  function CombineAnd(left: RenderResult, right: RenderResult): RenderResult {
    if left.unsatisfiable || right.unsatisfiable then UNSATISFIABLE
    else if left.trivial then right
    else if right.trivial then left
    else Plain(And(left.sql, right.sql))
  }

  function CombineOr(left: RenderResult, right: RenderResult): RenderResult {
    if left.trivial || right.trivial then TRIVIAL
    else if left.unsatisfiable then right
    else if right.unsatisfiable then left
    else Plain(Or(left.sql, right.sql))
  }

  function Combine(op: LogicalOp, left: RenderResult, right: RenderResult): RenderResult {
    match op case LogicalAnd => CombineAnd(left, right) case LogicalOr => CombineOr(left, right)
  }

  function Negated(child: RenderResult): RenderResult {
    if child.trivial then UNSATISFIABLE
    else if child.unsatisfiable then TRIVIAL
    else Plain(Negate(child.sql))
  }

  // Literals.

  function ExpectLiteral(e: ValueExpr): (r: Result<Value>)
    ensures r.Ok? ==> e.Literal? && e.value == r.value
  {
    if e.Literal? then Ok(e.value) else Err(ExpressionMustBeALiteral)
  }

  function ExpectBool(e: ValueExpr): (r: Result<bool>)
    ensures r.Ok? ==> e.Literal? && e.value == Bool(r.value)
  {
    var v :- ExpectLiteral(e);
    if v.Bool? then Ok(v.b) else Err(BooleanLiteralRequired)
  }

  function ToInt64(v: Value): Result<int> {
    match v
    case Int(i) => Ok(i)
    case Real(r) => Ok(Truncate(r))
    case _ => Err(CannotConvertToInt64)
  }

  function ExpectNumber(e: ValueExpr): (r: Result<int>)
    ensures r.Ok? ==> e.Literal?
  {
    var v :- ExpectLiteral(e);
    ToInt64(v)
  }

  /** The argument bound for a literal compared with a scalar field. */
  function ScalarArg(typ: FieldType, v: Value): Result<Value> {
    match typ
    case StringType => if v.Str? then Ok(v) else Err(FieldExpectsStringValue)
    case IntType => var i :- ToInt64(v); Ok(Int(i))
    case TimestampType => var i :- ToInt64(v); Ok(Int(i))
    case BoolType => Err(UnsupportedDataType)
  }

  function BoolArg(d: Dialect, b: bool): Value {
    if d == SQLite then Int(if b then 1 else 0) else Bool(b)
  }

  // Leaves. Each renders to a fragment whose placeholders start after `base` earlier arguments.

  function OneArg(d: Dialect, base: nat, t: Term, op: CompareOp, v: Value): Rendered {
    Rendered(Plain(Comparing(t, op, Param(Mark(d, base + 1)))), [v])
  }

  function NoArgs(sql: Sql): Rendered { Rendered(Plain(sql), []) }

  function PathExists(d: Dialect, f: string): Sql {
    if d == MySQL then TypeNotNull(f) else NotNull(PathTerm(f))
  }

  function RenderPredicate(schema: Schema, d: Dialect, f: string): Result<Rendered> {
    if f !in schema then Err(UnknownField) else
    match schema[f].kind
    case BoolColumn => Ok(NoArgs(IsTrue(Column(f))))
    case JsonBool =>
      Ok(NoArgs(if d == MySQL then Comparing(FlagTerm(f, true), Eq, Const(1)) else IsTrue(FlagTerm(f, false))))
    case JsonExists => Ok(NoArgs(PathExists(d, f)))
    case _ => Err(FieldCannotBeUsedAsAPredicate)
  }

  function RenderFlagComparison(d: Dialect, base: nat, f: string, op: CompareOp, rhs: ValueExpr): (r: Result<Rendered>)
    ensures r.Ok? ==> rhs.Literal?
  {
    var b :- ExpectBool(rhs);
    match d
    case SQLite =>
      if op != Eq && op != Neq then Err(OperatorNotSupportedForBooleanJSONField)
      else if f == "has_task_list" then Ok(NoArgs(Comparing(FlagTerm(f, false), op, Const(if b then 1 else 0))))
      else if (op == Eq) == b then Ok(NoArgs(IsTrue(FlagTerm(f, false))))
      else Ok(NoArgs(Negate(IsTrue(FlagTerm(f, false)))))
    case MySQL => Ok(NoArgs(Comparing(FlagTerm(f, f == "hidden"), op, Const(if b then 1 else 0))))
    case Postgres => Ok(OneArg(d, base, FlagTerm(f, f == "hidden"), op, Bool(b)))
  }

  function RenderPathComparison(d: Dialect, f: string, op: CompareOp, rhs: ValueExpr): (r: Result<Rendered>)
    ensures r.Ok? ==> rhs.Literal?
  {
    var b :- ExpectBool(rhs);
    if op != Eq && op != Neq then Err(OperatorNotSupported)
    else if (op == Eq) == b then Ok(NoArgs(PathExists(d, f)))
    else Ok(NoArgs(Negate(PathExists(d, f))))
  }

  function RenderScalarComparison(d: Dialect, base: nat, f: string, typ: FieldType, op: CompareOp,
                                  rhs: ValueExpr): (r: Result<Rendered>)
    ensures r.Ok? ==> rhs.Literal?
  {
    var v :- ExpectLiteral(rhs);
    if v == Null then
      match op
      case Eq => Ok(NoArgs(IsNull(Column(f))))
      case Neq => Ok(NoArgs(NotNull(Column(f))))
      case _ => Err(OperatorNotSupportedForNullComparison)
    else
      var arg :- ScalarArg(typ, v);
      Ok(OneArg(d, base, Column(f), op, arg))
  }

  function RenderSizeComparison(schema: Schema, d: Dialect, base: nat, arg: ValueExpr, op: CompareOp,
                                rhs: ValueExpr): (r: Result<Rendered>)
    ensures r.Ok? ==> rhs.Literal?
  {
    if !arg.FieldRef? then Err(SizeArgumentMustBeAField)
    else if arg.name !in schema then Err(UnknownField)
    else if ResolveAlias(schema, arg.name).None? then Err(InvalidAlias)
    else
      var target := ResolveAlias(schema, arg.name).value;
      var n :- ExpectNumber(rhs);
      if target.field.kind == JsonList then Ok(OneArg(d, base, ListLength(target.name), op, Int(n)))
      else if target.field.kind == Scalar && target.field.typ == StringType then
        Ok(OneArg(d, base, TextLength(target.name), op, Int(n)))
      else Err(SizeDoesNotSupportField)
  }

  /** What each dialect's date part must be lowered by to reach CEL's numbering. */
  function AccessorOffset(d: Dialect, accessor: Accessor): int {
    match accessor
    case GetMonth => 1
    case GetDayOfMonth => 1
    case GetDayOfYear => 1
    case GetDayOfWeek => if d == MySQL then 1 else 0
    case _ => 0
  }

  function RenderAccessorComparison(schema: Schema, d: Dialect, base: nat, f: string, accessor: Accessor,
                                    op: CompareOp, rhs: ValueExpr): (r: Result<Rendered>)
    ensures r.Ok? ==> rhs.Literal?
  {
    if f !in schema then Err(UnknownField)
    else
      var n :- ExpectNumber(rhs);
      Ok(OneArg(d, base, DatePart(f, accessor, AccessorOffset(d, accessor)), op, Int(n)))
  }

  function RenderComparison(schema: Schema, d: Dialect, base: nat, lhs: ValueExpr, op: CompareOp,
                            rhs: ValueExpr): (r: Result<Rendered>)
    ensures r.Ok? ==> rhs.Literal?
  {
    match lhs
    case FieldRef(f) =>
      if f !in schema then Err(UnknownField) else
      (match schema[f].kind
       case BoolColumn => var b :- ExpectBool(rhs); Ok(OneArg(d, base, Column(f), op, BoolArg(d, b)))
       case JsonBool => RenderFlagComparison(d, base, f, op, rhs)
       case JsonExists => RenderPathComparison(d, f, op, rhs)
       case Scalar => RenderScalarComparison(d, base, f, schema[f].typ, op, rhs)
       case _ => Err(FieldDoesNotSupportComparison))
    case Size(arg) => RenderSizeComparison(schema, d, base, arg, op, rhs)
    case FieldAccessor(f, accessor) => RenderAccessorComparison(schema, d, base, f, accessor, op, rhs)
    case Literal(_) => Err(ComparisonNeedsField)
  }

  function RenderComprehension(d: Dialect, base: nat, kind: ComprehensionKind, list: string,
                               pred: TagPredicate): Rendered {
    var (elem, args) := ElementFor(d, pred, base);
    Rendered(Plain(ComprehensionSql(d, kind, list, elem)), args)
  }

  /** The arguments of an IN list, in order. */
  function InArgs(typ: FieldType, values: seq<ValueExpr>): Result<seq<Value>>
    decreases |values|
  {
    if values == [] then Ok([]) else
    var v :- ExpectLiteral(values[0]);
    var arg :- (if typ == StringType || typ == IntType then ScalarArg(typ, v)
                else Err(FieldDoesNotSupportINComparisons));
    var rest :- InArgs(typ, values[1..]);
    Ok([arg] + rest)
  }

  /** The test `v in list`. */
  function TagTest(d: Dialect, base: nat, list: string, v: string): Sql {
    RenderComprehension(d, base, Exists, list, Equals(v)).res.sql
  }

  /** `tag in [...]`: one membership test per value, joined by OR. */
  function TagAlternatives(d: Dialect, base: nat, list: string, values: seq<ValueExpr>): Result<(seq<Sql>, seq<Value>)>
    decreases |values|
  {
    if values == [] then Ok(([], [])) else
    var v :- ExpectLiteral(values[0]);
    if !v.Str? then Err(TagsMustBeComparedWithStringLiterals) else
    var rest :- TagAlternatives(d, base + 1, list, values[1..]);
    Ok(([TagTest(d, base, list, v.s)] + rest.0, [v] + rest.1))
  }

  function AnyOf(alternatives: seq<Sql>): Sql
    decreases |alternatives|
  {
    if alternatives == [] then Never
    else if |alternatives| == 1 then alternatives[0]
    else Or(alternatives[0], AnyOf(alternatives[1..]))
  }

  function RenderIn(schema: Schema, d: Dialect, base: nat, member: ValueExpr,
                    values: seq<ValueExpr>): Result<Rendered> {
    if !member.FieldRef? then Err(InNeedsField)
    else if member.name == "tag" then
      if ResolveAlias(schema, "tag").None? then Err(TagAttributeIsNotConfigured) else
      var r :- TagAlternatives(d, base, ResolveAlias(schema, "tag").value.name, values);
      Ok(Rendered(Plain(AnyOf(r.0)), r.1))
    else if member.name !in schema then Err(UnknownField)
    else if schema[member.name].kind != Scalar then Err(FieldDoesNotSupportIN)
    else
      var args :- InArgs(schema[member.name].typ, values);
      Ok(Rendered(Plain(InList(Column(member.name), Marks(d, base, |args|))), args))
  }

  function RenderElementIn(schema: Schema, d: Dialect, base: nat, element: ValueExpr, f: string): Result<Rendered> {
    if f !in schema then Err(UnknownField)
    else if schema[f].kind != JsonList then Err(FieldIsNotATagList)
    else
      var v :- ExpectLiteral(element);
      if !v.Str? then Err(TagsMembershipRequiresStringLiteral)
      else Ok(RenderComprehension(d, base, Exists, f, Equals(v.s)))
  }

  predicate IsLeaf(c: Condition) { !c.Logical? && !c.Not? }

  function RenderLeaf(schema: Schema, d: Dialect, base: nat, c: Condition): Result<Rendered>
    requires IsLeaf(c)
  {
    match c
    case FieldPredicate(f) => RenderPredicate(schema, d, f)
    case Comparison(lhs, op, rhs) => RenderComparison(schema, d, base, lhs, op, rhs)
    case In(member, values) => RenderIn(schema, d, base, member, values)
    case ElementIn(element, f) => RenderElementIn(schema, d, base, element, f)
    case TextMatch(f, mode, value) =>
      if f !in schema then Err(UnknownField)
      else Ok(Rendered(Plain(FoldedLike(Column(f), Mark(d, base + 1))), [Str(Pattern(mode, value, BACKSLASH))]))
    case Regex(f, pattern) =>
      if f !in schema then Err(UnknownField)
      else Ok(Rendered(Plain(Regexp(Column(f), Mark(d, base + 1))), [Str(pattern)]))
    case ListComprehension(kind, f, pred) =>
      if f !in schema then Err(UnknownField)
      else if schema[f].kind != JsonList then Err(FieldIsNotAJSONList)
      else Ok(RenderComprehension(d, base, kind, f, pred))
    case Constant(b) => Ok(Rendered(if b then TRIVIAL else UNSATISFIABLE, []))
  }

  function Rendering(schema: Schema, d: Dialect, base: nat, c: Condition): Result<Rendered>
    decreases c
  {
    match c
    case Logical(op, left, right) =>
      var l :- Rendering(schema, d, base, left);
      var r :- Rendering(schema, d, base + |l.args|, right);
      Ok(Rendered(Combine(op, l.res, r.res), l.args + r.args))
    case Not(e) =>
      var x :- Rendering(schema, d, base, e);
      Ok(Rendered(Negated(x.res), x.args))
    case _ => RenderLeaf(schema, d, base, c)
  }

  datatype Statement = Statement(sql: Sql, args: seq<Value>)

  // The renderer object.

  /** A rendering method returns the described result and appends its arguments in order. */
  ghost predicate Yields(expected: Result<Rendered>, r: Result<RenderResult>, before: seq<Value>, after: seq<Value>) {
    && r.Ok? == expected.Ok?
    && match expected
       case Ok(p) => r.value == p.res && after == before + p.args
       case Err(e) => r.error == e
  }

  /** What is rendered so far, followed by the rest, is the whole. */
  ghost predicate Continues(whole: Result<(seq<Sql>, seq<Value>)>, tests: seq<Sql>, added: seq<Value>,
                            rest: Result<(seq<Sql>, seq<Value>)>) {
    match rest
    case Ok(x) => whole.Ok? && whole.value.0 == tests + x.0 && whole.value.1 == added + x.1
    case Err(e) => whole == Err(e)
  }

  lemma NextTest(d: Dialect, base: nat, whole: Result<(seq<Sql>, seq<Value>)>, tests: seq<Sql>, added: seq<Value>,
                 list: string, values: seq<ValueExpr>)
    requires values != [] && Continues(whole, tests, added, TagAlternatives(d, base, list, values))
    ensures values[0].Literal? && values[0].value.Str? ==>
      Continues(whole, tests + [TagTest(d, base, list, values[0].value.s)], added + [values[0].value],
                TagAlternatives(d, base + 1, list, values[1..]))
  {
  }

  lemma TestsDone(whole: Result<(seq<Sql>, seq<Value>)>, tests: seq<Sql>, added: seq<Value>)
    requires Continues(whole, tests, added, Ok(([], [])))
    ensures whole == Ok((tests, added))
  {
    assert tests + [] == tests && added + [] == added;
  }

  lemma NextArg(typ: FieldType, whole: Result<seq<Value>>, added: seq<Value>, values: seq<ValueExpr>)
    requires values != [] && Finishes(whole, added, InArgs(typ, values))
    ensures values[0].Literal? && (typ == StringType || typ == IntType) && ScalarArg(typ, values[0].value).Ok? ==>
      Finishes(whole, added + [ScalarArg(typ, values[0].value).value], InArgs(typ, values[1..]))
  {
  }

  lemma NextMark(d: Dialect, base: nat, i: nat)
    ensures Marks(d, base, i) + [Mark(d, base + 1 + i)] == Marks(d, base, i + 1)
  {
  }

  class Renderer {
    const schema: Schema
    const dialect: Dialect
    const offset: nat
    var counter: nat
    var args: seq<Value>

    ghost predicate Valid()
      reads this
    {
      counter == |args|
    }

    constructor (schema: Schema, dialect: Dialect, offset: nat)
      ensures Valid() && args == []
      ensures this.schema == schema && this.dialect == dialect && this.offset == offset
    {
      this.schema, this.dialect, this.offset := schema, dialect, offset;
      counter, args := 0, [];
    }

    method AddArg(v: Value) returns (h: Hole)
      requires Valid()
      modifies this
      ensures Valid() && args == old(args) + [v]
      ensures h == Mark(dialect, offset + |args|)
    {
      counter := counter + 1;
      args := args + [v];
      h := if dialect == Postgres then Dollar(offset + counter) else Question(offset + counter);
    }

    method AddBoolArg(b: bool) returns (h: Hole)
      requires Valid()
      modifies this
      ensures Valid() && args == old(args) + [BoolArg(dialect, b)]
      ensures h == Mark(dialect, offset + |args|)
    {
      var v := if dialect == SQLite then (if b then Int(1) else Int(0)) else Bool(b);
      h := AddArg(v);
    }

    method CompareWith(t: Term, op: CompareOp, v: Value) returns (r: Result<RenderResult>)
      requires Valid()
      modifies this
      ensures Valid() && Yields(Ok(OneArg(dialect, offset + |old(args)|, t, op, v)), r, old(args), args)
    {
      var h := AddArg(v);
      r := Ok(Plain(Comparing(t, op, Param(h))));
    }

    method RenderFieldPredicate(f: string) returns (r: Result<RenderResult>)
      requires Valid()
      ensures Valid() && Yields(RenderPredicate(schema, dialect, f), r, old(args), args)
    {
      if f !in schema {
        return Err(UnknownField);
      }
      match schema[f].kind
      case BoolColumn => r := Ok(Plain(IsTrue(Column(f))));
      case JsonBool =>
        r := Ok(Plain(match dialect
                      case MySQL => Comparing(FlagTerm(f, true), Eq, Const(1))
                      case SQLite => IsTrue(FlagTerm(f, false))
                      case Postgres => IsTrue(FlagTerm(f, false))));
      case JsonExists => r := Ok(Plain(PathExists(dialect, f)));
      case _ => r := Err(FieldCannotBeUsedAsAPredicate);
    }

    method RenderJsonBoolComparison(f: string, op: CompareOp, rhs: ValueExpr) returns (r: Result<RenderResult>)
      requires Valid()
      modifies this
      ensures Valid() && Yields(RenderFlagComparison(dialect, offset + |old(args)|, f, op, rhs), r, old(args), args)
    {
      var b :- ExpectBool(rhs);
      match dialect
      case SQLite =>
        var target := if b then 1 else 0;
        match op {
          case Eq =>
            if f == "has_task_list" { return Ok(Plain(Comparing(FlagTerm(f, false), Eq, Const(target)))); }
            if b { return Ok(Plain(IsTrue(FlagTerm(f, false)))); }
            r := Ok(Plain(Negate(IsTrue(FlagTerm(f, false)))));
          case Neq =>
            if f == "has_task_list" { return Ok(Plain(Comparing(FlagTerm(f, false), Neq, Const(target)))); }
            if b { return Ok(Plain(Negate(IsTrue(FlagTerm(f, false))))); }
            r := Ok(Plain(IsTrue(FlagTerm(f, false))));
          case _ => r := Err(OperatorNotSupportedForBooleanJSONField);
        }
      case MySQL =>
        r := Ok(Plain(Comparing(FlagTerm(f, f == "hidden"), op, Const(if b then 1 else 0))));
      case Postgres =>
        var h := AddArg(Bool(b));
        r := Ok(Plain(Comparing(FlagTerm(f, f == "hidden"), op, Param(h))));
    }

    method RenderJsonExistsComparison(f: string, op: CompareOp, rhs: ValueExpr) returns (r: Result<RenderResult>)
      requires Valid()
      ensures Valid() && Yields(RenderPathComparison(dialect, f, op, rhs), r, old(args), args)
    {
      var want :- ExpectBool(rhs);
      match op {
        case Eq =>
        case Neq => want := !want;
        case _ => return Err(OperatorNotSupported);
      }
      r := Ok(Plain(if want then PathExists(dialect, f) else Negate(PathExists(dialect, f))));
    }

    method RenderScalar(f: string, typ: FieldType, op: CompareOp, rhs: ValueExpr) returns (r: Result<RenderResult>)
      requires Valid()
      modifies this
      ensures Valid()
      ensures Yields(RenderScalarComparison(dialect, offset + |old(args)|, f, typ, op, rhs), r, old(args), args)
    {
      var v :- ExpectLiteral(rhs);
      if v == Null {
        match op
        case Eq => return Ok(Plain(IsNull(Column(f))));
        case Neq => return Ok(Plain(NotNull(Column(f))));
        case _ => return Err(OperatorNotSupportedForNullComparison);
      }
      var arg :- ScalarArg(typ, v);
      r := CompareWith(Column(f), op, arg);
    }

    method RenderSize(arg: ValueExpr, op: CompareOp, rhs: ValueExpr) returns (r: Result<RenderResult>)
      requires Valid()
      modifies this
      ensures Valid()
      ensures Yields(RenderSizeComparison(schema, dialect, offset + |old(args)|, arg, op, rhs), r, old(args), args)
    {
      if !arg.FieldRef? { return Err(SizeArgumentMustBeAField); }
      if arg.name !in schema { return Err(UnknownField); }
      var resolved := ResolveAlias(schema, arg.name);
      if resolved.None? { return Err(InvalidAlias); }
      var target := resolved.value;
      var n :- ExpectNumber(rhs);
      var t;
      if target.field.kind == JsonList {
        t := ListLength(target.name);
      } else if target.field.kind == Scalar && target.field.typ == StringType {
        t := TextLength(target.name);
      } else {
        return Err(SizeDoesNotSupportField);
      }
      r := CompareWith(t, op, Int(n));
    }

    method RenderAccessor(f: string, accessor: Accessor, op: CompareOp, rhs: ValueExpr)
      returns (r: Result<RenderResult>)
      requires Valid()
      modifies this
      ensures Valid()
      ensures Yields(RenderAccessorComparison(schema, dialect, offset + |old(args)|, f, accessor, op, rhs), r,
                     old(args), args)
    {
      if f !in schema { return Err(UnknownField); }
      var n :- ExpectNumber(rhs);
      r := CompareWith(DatePart(f, accessor, AccessorOffset(dialect, accessor)), op, Int(n));
    }

    method RenderComparisonCondition(lhs: ValueExpr, op: CompareOp, rhs: ValueExpr) returns (r: Result<RenderResult>)
      requires Valid()
      modifies this
      ensures Valid()
      ensures Yields(RenderComparison(schema, dialect, offset + |old(args)|, lhs, op, rhs), r, old(args), args)
    {
      match lhs
      case FieldRef(f) =>
        if f !in schema { return Err(UnknownField); }
        match schema[f].kind {
          case BoolColumn =>
            var b :- ExpectBool(rhs);
            var h := AddBoolArg(b);
            r := Ok(Plain(Comparing(Column(f), op, Param(h))));
          case JsonBool => r := RenderJsonBoolComparison(f, op, rhs);
          case JsonExists => r := RenderJsonExistsComparison(f, op, rhs);
          case Scalar => r := RenderScalar(f, schema[f].typ, op, rhs);
          case _ => r := Err(FieldDoesNotSupportComparison);
        }
      case Size(arg) => r := RenderSize(arg, op, rhs);
      case FieldAccessor(f, accessor) => r := RenderAccessor(f, accessor, op, rhs);
      case Literal(_) => r := Err(ComparisonNeedsField);
    }

    method RenderTagElement(pred: TagPredicate) returns (e: Elem)
      requires Valid()
      modifies this
      ensures Valid() && e == ElementFor(dialect, pred, offset + |old(args)|).0
      ensures args == old(args) + ElementFor(dialect, pred, offset + |old(args)|).1
    {
      match pred
      case Equals(v) =>
        var h := AddArg(Str(v));
        e := SameText(h);
      case TextMatchOf(mode, v) =>
        if v == "" {
          return AnyElement;
        }
        if dialect == SQLite {
          match mode {
            case Prefix =>
              var h := AddArg(Str(v));
              e := InstrIsOne(h);
            case Suffix =>
              var length := AddArg(Str(v));
              var h := AddArg(Str(v));
              e := TailIs(length, h);
            case Contains =>
              var h := AddArg(Str(v));
              e := InstrPositive(h);
          }
        } else {
          var h := AddArg(Str(Pattern(mode, v, BANG)));
          e := LikeBang(h);
        }
    }

    method RenderTagComprehension(kind: ComprehensionKind, list: string, pred: TagPredicate) returns (r: RenderResult)
      requires Valid()
      modifies this
      ensures Valid()
      ensures Yields(Ok(RenderComprehension(dialect, offset + |old(args)|, kind, list, pred)), Ok(r), old(args), args)
    {
      var e := RenderTagElement(pred);
      r := Plain(ComprehensionSql(dialect, kind, list, e));
    }

    method RenderTagTest(list: string, v: string) returns (sql: Sql)
      requires Valid()
      modifies this
      ensures Valid() && sql == TagTest(dialect, offset + |old(args)|, list, v) && args == old(args) + [Str(v)]
    {
      var x := RenderTagComprehension(Exists, list, Equals(v));
      sql := x.sql;
    }

    method RenderTagTests(list: string, values: seq<ValueExpr>) returns (r: Result<seq<Sql>>)
      requires Valid()
      modifies this
      ensures Valid()
      ensures match TagAlternatives(dialect, offset + |old(args)|, list, values)
              case Ok(all) => r.Ok? && r.value == all.0 && args == old(args) + all.1
              case Err(e) => r == Err(e)
    {
      ghost var whole := TagAlternatives(dialect, offset + |args|, list, values);
      var conditions := [];
      ghost var added := [];
      for i := 0 to |values|
        invariant Valid() && args == old(args) + added
        invariant Continues(whole, conditions, added, TagAlternatives(dialect, offset + |args|, list, values[i..]))
      {
        assert values[i..][1..] == values[i + 1..];
        NextTest(dialect, offset + |args|, whole, conditions, added, list, values[i..]);
        var v :- ExpectLiteral(values[i]);
        if !v.Str? { return Err(TagsMustBeComparedWithStringLiterals); }
        var one := RenderTagTest(list, v.s);
        conditions, added := conditions + [one], added + [v];
      }
      assert values[|values|..] == [];
      TestsDone(whole, conditions, added);
      r := Ok(conditions);
    }

    method RenderTagInList(values: seq<ValueExpr>) returns (r: Result<RenderResult>)
      requires Valid()
      modifies this
      ensures Valid()
      ensures Yields(RenderIn(schema, dialect, offset + |old(args)|, FieldRef("tag"), values), r, old(args), args)
    {
      var resolved := ResolveAlias(schema, "tag");
      if resolved.None? { return Err(TagAttributeIsNotConfigured); }
      var conditions :- RenderTagTests(resolved.value.name, values);
      r := Ok(Plain(AnyOf(conditions)));
    }

    method RenderScalarIn(f: string, values: seq<ValueExpr>) returns (r: Result<RenderResult>)
      requires Valid() && f in schema && schema[f].kind == Scalar && f != "tag"
      modifies this
      ensures Valid()
      ensures Yields(RenderIn(schema, dialect, offset + |old(args)|, FieldRef(f), values), r, old(args), args)
    {
      var placeholders := [];
      var typ := schema[f].typ;
      ghost var base, whole, added := offset + |args|, InArgs(typ, values), [];
      for i := 0 to |values|
        invariant Valid() && args == old(args) + added && |added| == i
        invariant placeholders == Marks(dialect, base, i)
        invariant Finishes(whole, added, InArgs(typ, values[i..]))
      {
        assert values[i..][1..] == values[i + 1..];
        NextArg(typ, whole, added, values[i..]);
        NextMark(dialect, base, i);
        var v :- ExpectLiteral(values[i]);
        if typ != StringType && typ != IntType { return Err(FieldDoesNotSupportINComparisons); }
        var arg :- ScalarArg(typ, v);
        var h := AddArg(arg);
        placeholders, added := placeholders + [h], added + [arg];
      }
      r := Ok(Plain(InList(Column(f), placeholders)));
    }

    method RenderInCondition(member: ValueExpr, values: seq<ValueExpr>) returns (r: Result<RenderResult>)
      requires Valid()
      modifies this
      ensures Valid() && Yields(RenderIn(schema, dialect, offset + |old(args)|, member, values), r, old(args), args)
    {
      if !member.FieldRef? { return Err(InNeedsField); }
      if member.name == "tag" {
        r := RenderTagInList(values);
      } else if member.name !in schema {
        r := Err(UnknownField);
      } else if schema[member.name].kind != Scalar {
        r := Err(FieldDoesNotSupportIN);
      } else {
        r := RenderScalarIn(member.name, values);
      }
    }

    method RenderCondition(c: Condition) returns (r: Result<RenderResult>)
      requires Valid()
      modifies this
      ensures Valid() && Yields(Rendering(schema, dialect, offset + |old(args)|, c), r, old(args), args)
      decreases c
    {
      match c
      case Logical(op, left, right) =>
        var l :- RenderCondition(left);
        var x :- RenderCondition(right);
        r := Ok(match op case LogicalAnd => CombineAnd(l, x) case LogicalOr => CombineOr(l, x));
      case Not(e) =>
        var x :- RenderCondition(e);
        r := Ok(Negated(x));
      case FieldPredicate(f) => r := RenderFieldPredicate(f);
      case Comparison(lhs, op, rhs) => r := RenderComparisonCondition(lhs, op, rhs);
      case In(member, values) => r := RenderInCondition(member, values);
      case ElementIn(element, f) =>
        if f !in schema { return Err(UnknownField); }
        if schema[f].kind != JsonList { return Err(FieldIsNotATagList); }
        var v :- ExpectLiteral(element);
        if !v.Str? { return Err(TagsMembershipRequiresStringLiteral); }
        var x := RenderTagComprehension(Exists, f, Equals(v.s));
        r := Ok(x);
      case TextMatch(f, mode, value) =>
        if f !in schema { return Err(UnknownField); }
        var h := AddArg(Str(Pattern(mode, value, BACKSLASH)));
        r := Ok(Plain(FoldedLike(Column(f), h)));
      case Regex(f, pattern) =>
        if f !in schema { return Err(UnknownField); }
        var h := AddArg(Str(pattern));
        r := Ok(Plain(Regexp(Column(f), h)));
      case ListComprehension(kind, f, pred) =>
        if f !in schema { return Err(UnknownField); }
        if schema[f].kind != JsonList { return Err(FieldIsNotAJSONList); }
        var x := RenderTagComprehension(kind, f, pred);
        r := Ok(x);
      case Constant(b) =>
        r := Ok(if b then TRIVIAL else UNSATISFIABLE);
    }

    /** Renders a whole filter with a fresh renderer. */
    method Render(c: Condition) returns (r: Result<Statement>)
      requires Valid() && args == []
      modifies this
      ensures r == StatementFor(schema, dialect, offset, c)
    {
      assert offset + |args| == offset;
      var x :- RenderCondition(c);
      assert args == Rendering(schema, dialect, offset, c).value.args;
      r := Ok(Statement(if x.unsatisfiable then Never else if x.trivial then Blank else x.sql, args));
    }
  }

  function StatementFor(schema: Schema, d: Dialect, offset: nat, c: Condition): Result<Statement> {
    var p :- Rendering(schema, d, offset, c);
    Ok(Statement(if p.res.unsatisfiable then Never else if p.res.trivial then Blank else p.res.sql, p.args))
  }
}
