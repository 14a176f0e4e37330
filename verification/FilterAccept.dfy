/** Which filters are accepted: conditions on the expression and the schema, exact for building the tree, for rendering
    it, and for appending a list of filters to a query. */
module FilterAccept {
  import opened Wrappers
  import opened Like
  import opened FilterIr
  import opened FilterParser
  import opened FilterRender
  import opened FilterAppend

  // Operands.

  datatype Sort = Number | Text | Truth | Nothing

  /** An operand is a constant of some sort, a named field, another reading of the row, or refused. */
  datatype Form = Known(sort: Sort) | Named(field: string) | Reading | Refused

  function SortOf(v: Value): Sort {
    match v
    case Int(_) => Number
    case Real(_) => Number
    case Str(_) => Text
    case Bool(_) => Truth
    case Null => Nothing
  }

  /** What constant folding makes of an expression: a number, nothing, or an error. */
  datatype Folding = ToNumber | NotConstant | Fails

  function Folds(e: Expr, ctx: Context): Folding {
    match e
    case Const(v) => if v.Int? || v.Real? then ToNumber else NotConstant
    case Ident(name) => if name == "now" then ToNumber else NotConstant
    case Call(TimestampFn, _, args) =>
      if |args| == 1 && args[0].Const?
         && (args[0].v.Int? || (args[0].v.Str? && ctx.parseTime(args[0].v.s).Some?)) then ToNumber else Fails
    case Call(DurationFn, _, args) =>
      if |args| == 1 && args[0].Const? && args[0].v.Str? && ctx.parseDuration(args[0].v.s).Some? then ToNumber
      else Fails
    case Call(ArithFn(op), _, args) =>
      if |args| != 2 || Folds(args[0], ctx) == Fails then Fails
      else if Folds(args[0], ctx) == NotConstant then NotConstant
      else if Folds(args[1], ctx) != ToNumber then Folds(args[1], ctx)
      else if (op == Div || op == Mod) && EvaluateNumeric(args[1], ctx) == Ok(Some(0)) then Fails
      else ToNumber
    case _ => NotConstant
  }

  lemma {:induction false} FoldsIff(e: Expr, ctx: Context)
    ensures EvaluateNumeric(e, ctx).Err? <==> Folds(e, ctx) == Fails
    ensures EvaluateNumeric(e, ctx).Ok? && EvaluateNumeric(e, ctx).value.Some? <==> Folds(e, ctx) == ToNumber
    decreases e
  {
    if e.Call? && e.fn.ArithFn? && |e.args| == 2 {
      FoldsIff(e.args[0], ctx);
      FoldsIff(e.args[1], ctx);
    }
  }

  /** A chain of negations: over a boolean constant it is one, and elsewhere it must take one argument each. */
  predicate NegationFails(e: Expr) { e.Call? && e.fn.NotFn? && (|e.args| != 1 || NegationFails(e.args[0])) }

  predicate NegatesConstant(e: Expr) {
    (e.Const? && e.v.Bool?) || (e.Call? && e.fn.NotFn? && |e.args| == 1 && NegatesConstant(e.args[0]))
  }

  lemma {:induction false} NegationIff(e: Expr)
    ensures EvaluateBool(e).Err? <==> NegationFails(e)
    ensures EvaluateBool(e).Ok? && EvaluateBool(e).value.Some? <==> NegatesConstant(e)
    decreases e
  {
    if e.Call? && e.fn.NotFn? && |e.args| == 1 { NegationIff(e.args[0]); }
  }

  function FormOf(e: Expr, ctx: Context): Form {
    match e
    case Ident(name) => if name == "now" then Known(Number) else if name in ctx.schema then Named(name) else Refused
    case Const(v) => Known(SortOf(v))
    case Call(fn, target, args) =>
      if Folds(e, ctx) == ToNumber then Known(Number)
      else if Folds(e, ctx) == Fails || NegationFails(e) then Refused
      else if NegatesConstant(e) then Known(Truth)
      else if fn.AccessorFn? && target.Some? then
        if !target.value.Ident? || args != [] then Refused
        else if target.value.name == "now" then Known(Number)
        else if target.value.name in ctx.schema && ctx.schema[target.value.name].typ == TimestampType then Reading
        else Refused
      else if fn.SizeFn? && |args| == 1 && FormOf(args[0], ctx) != Refused then Reading
      else Refused
    case _ => Refused
  }

  /** An operand is built exactly when it is not refused, into a literal of its sort, its field, or another reading. */
  lemma {:induction false} OperandBuiltIff(e: Expr, ctx: Context)
    ensures match FormOf(e, ctx)
      case Refused => BuildValue(e, ctx).Err?
      case Known(sort) => BuildValue(e, ctx).Ok? && BuildValue(e, ctx).value.Literal?
        && SortOf(BuildValue(e, ctx).value.value) == sort
      case Named(f) => BuildValue(e, ctx) == Ok(FieldRef(f))
      case Reading =>
        BuildValue(e, ctx).Ok? && (BuildValue(e, ctx).value.Size? || BuildValue(e, ctx).value.FieldAccessor?)
    decreases e
  {
    FoldsIff(e, ctx);
    NegationIff(e);
    if e.Call? && e.fn.SizeFn? && |e.args| == 1 { OperandBuiltIff(e.args[0], ctx); }
  }

  // Comparisons.

  /** The comparison operators a field allows; an alias has those of its target, and a field that lists none allows
      all. */
  predicate Permits(schema: Schema, f: string, op: CompareOp) {
    && f in schema
    && var t := if schema[f].kind == VirtualAlias then schema[f].aliasFor else f;
       t in schema && (schema[t].allowed == None || op in schema[t].allowed.value)
  }

  function Swapped(op: CompareOp): CompareOp {
    match op case Eq => Eq case Neq => Neq case Lt => Gt case Gt => Lt case Lte => Gte case Gte => Lte
  }

  /** Constants of one sort compare; booleans only for equality, nulls not at all. */
  predicate SortsCompare(a: Sort, op: CompareOp, b: Sort) {
    a == b && a != Nothing && (a == Truth ==> op == Eq || op == Neq)
  }

  predicate Comparable(ctx: Context, a: Expr, op: CompareOp, b: Expr) {
    match (FormOf(a, ctx), FormOf(b, ctx))
    case (Refused, _) => false
    case (_, Refused) => false
    case (Known(s), Known(t)) => SortsCompare(s, op, t)
    case (Known(_), Named(f)) => Permits(ctx.schema, f, Swapped(op))
    case (Named(f), _) => Permits(ctx.schema, f, op)
    case _ => true
  }

  lemma ComparisonBuiltIff(op: CompareOp, args: seq<Expr>, ctx: Context)
    ensures BuildComparison(op, args, ctx).Ok? <==> |args| == 2 && Comparable(ctx, args[0], op, args[1])
  {
    if |args| == 2 {
      OperandBuiltIff(args[0], ctx);
      OperandBuiltIff(args[1], ctx);
    }
  }

  /** A field against a constant: built exactly when the field allows the operator, mirrored if the constant stands on
      the left. */
  lemma FieldAgainstConstantIff(op: CompareOp, f: string, a: Expr, ctx: Context)
    requires f in ctx.schema && ctx.schema[f].kind != VirtualAlias && ctx.schema[f].allowed.Some? && f != "now"
    requires FormOf(a, ctx).Known?
    ensures BuildComparison(op, [Ident(f), a], ctx).Ok? <==> op in ctx.schema[f].allowed.value
    ensures BuildComparison(op, [a, Ident(f)], ctx).Ok? <==> Swapped(op) in ctx.schema[f].allowed.value
  {
    ComparisonBuiltIff(op, [Ident(f), a], ctx);
    ComparisonBuiltIff(op, [a, Ident(f)], ctx);
  }

  // Whole expressions.

  predicate AllBuilt(es: seq<Expr>, ctx: Context) { forall e :: e in es ==> FormOf(e, ctx) != Refused }

  lemma {:induction false} ValuesBuiltIff(es: seq<Expr>, ctx: Context)
    ensures BuildValues(es, ctx).Ok? <==> AllBuilt(es, ctx)
    decreases |es|
  {
    if es != [] {
      OperandBuiltIff(es[0], ctx);
      ValuesBuiltIff(es[1..], ctx);
      assert es == [es[0]] + es[1..];
    }
  }

  /** The field is known, and if it is an alias, so is its target. */
  predicate Resolves(schema: Schema, f: string) {
    f in schema && (schema[f].kind == VirtualAlias ==> schema[f].aliasFor in schema)
  }

  predicate MembershipBuilt(a: Expr, b: Expr, ctx: Context) {
    && (a.Ident? ==> Resolves(ctx.schema, a.name))
    && if a.Ident? && b.ListExpr? then AllBuilt(b.elements, ctx)
       else b.Ident? && b.name in ctx.schema && FormOf(a, ctx) != Refused
  }

  predicate TextBuilt(target: Option<Expr>, args: seq<Expr>, ctx: Context) {
    && target.Some? && target.value.Ident? && target.value.name in ctx.schema
    && ctx.schema[target.value.name].supportsContains
    && |args| == 1 && args[0].Const? && args[0].v.Str?
  }

  predicate ListField(e: Expr, ctx: Context) {
    e.Ident? && e.name in ctx.schema && ctx.schema[e.name].kind == JsonList
  }

  predicate SetBuilt(args: seq<Expr>, ctx: Context) {
    && |args| == 2 && ListField(args[0], ctx) && args[1].ListExpr?
    && forall e :: e in args[1].elements ==> e.Const? && e.v.Str?
  }

  /** The expressions that become a tree. */
  predicate Buildable(e: Expr, ctx: Context) {
    match e
    case Const(v) => v.Bool?
    case Ident(f) => f in ctx.schema && ctx.schema[f].typ == BoolType
    case ListExpr(_) => false
    case Comprehension(_, range, _) => ListField(range, ctx)
    case Call(fn, target, args) =>
      (match fn
       case AndFn => |args| == 2 && Buildable(args[0], ctx) && Buildable(args[1], ctx)
       case OrFn => |args| == 2 && Buildable(args[0], ctx) && Buildable(args[1], ctx)
       case NotFn => |args| == 1 && Buildable(args[0], ctx)
       case CompareFn(op) => |args| == 2 && Comparable(ctx, args[0], op, args[1])
       case InFn => |args| == 2 && MembershipBuilt(args[0], args[1], ctx)
       case TextFn(_) => TextBuilt(target, args, ctx)
       case MatchesFn => TextBuilt(target, args, ctx)
       case SetsContains => SetBuilt(args, ctx)
       case SetsIntersects => SetBuilt(args, ctx)
       case SetsEquivalent => SetBuilt(args, ctx)
       case _ => false)
  }

  lemma {:induction false} StringsCollectedIff(es: seq<Expr>)
    ensures StringLiterals(es).Ok? <==> forall e :: e in es ==> e.Const? && e.v.Str?
    decreases |es|
  {
    if es != [] {
      StringsCollectedIff(es[1..]);
      assert es == [es[0]] + es[1..];
    }
  }

  lemma MembershipBuiltIff(args: seq<Expr>, ctx: Context)
    ensures BuildIn(args, ctx).Ok? <==> |args| == 2 && MembershipBuilt(args[0], args[1], ctx)
  {
    if |args| == 2 {
      OperandBuiltIff(args[0], ctx);
      if args[1].ListExpr? { ValuesBuiltIff(args[1].elements, ctx); }
    }
  }

  /** An expression becomes a tree exactly when it is buildable. */
  lemma {:induction false} BuiltIff(e: Expr, ctx: Context)
    ensures BuildCondition(e, ctx).Ok? <==> Buildable(e, ctx)
    decreases e
  {
    if e.Call? {
      match e.fn {
        case AndFn => if |e.args| == 2 { BuiltIff(e.args[0], ctx); BuiltIff(e.args[1], ctx); }
        case OrFn => if |e.args| == 2 { BuiltIff(e.args[0], ctx); BuiltIff(e.args[1], ctx); }
        case NotFn => if |e.args| == 1 { BuiltIff(e.args[0], ctx); }
        case CompareFn(op) => ComparisonBuiltIff(op, e.args, ctx);
        case InFn => MembershipBuiltIff(e.args, ctx);
        case _ => if |e.args| == 2 && e.args[1].ListExpr? { StringsCollectedIff(e.args[1].elements); }
      }
    }
  }

  // Rendering.

  /** The literals a field of a type is compared with. */
  predicate Fits(typ: FieldType, v: Value) {
    match typ
    case StringType => v.Str?
    case IntType => v.Int? || v.Real?
    case TimestampType => v.Int? || v.Real?
    case BoolType => false
  }

  predicate Equality(op: CompareOp) { op == Eq || op == Neq }

  /** A comparison of a field with a literal: booleans for boolean fields, SQLite allowing a stored flag equality alone;
      null for equality, and otherwise a literal of the field's type. */
  predicate FieldRenders(field: Field, d: Dialect, op: CompareOp, v: Value) {
    match field.kind
    case BoolColumn => v.Bool?
    case JsonBool => v.Bool? && (d == SQLite ==> Equality(op))
    case JsonExists => v.Bool? && Equality(op)
    case Scalar => if v == Null then Equality(op) else Fits(field.typ, v)
    case JsonList => false
    case VirtualAlias => false
  }

  /** `size` reads a list, or the length of a text column, through an alias. */
  predicate SizeRenders(schema: Schema, f: string) {
    && Resolves(schema, f)
    && var t := if schema[f].kind == VirtualAlias then schema[f].aliasFor else f;
       schema[t].kind == JsonList || (schema[t].kind == Scalar && schema[t].typ == StringType)
  }

  predicate ComparisonRenders(schema: Schema, d: Dialect, lhs: ValueExpr, op: CompareOp, rhs: ValueExpr) {
    && rhs.Literal?
    && match lhs
       case FieldRef(f) => f in schema && FieldRenders(schema[f], d, op, rhs.value)
       case Size(arg) => arg.FieldRef? && SizeRenders(schema, arg.name) && (rhs.value.Int? || rhs.value.Real?)
       case FieldAccessor(f, _) => f in schema && (rhs.value.Int? || rhs.value.Real?)
       case Literal(_) => false
  }

  /** An element of an `IN` list over text or integers. */
  predicate Lists(typ: FieldType, x: ValueExpr) {
    x.Literal? && Fits(typ, x.value) && (typ == StringType || typ == IntType)
  }

  predicate InRenders(schema: Schema, member: ValueExpr, values: seq<ValueExpr>) {
    && member.FieldRef?
    && if member.name == "tag" then
         Resolves(schema, "tag") && forall x :: x in values ==> x.Literal? && x.value.Str?
       else
         && member.name in schema && schema[member.name].kind == Scalar
         && forall x :: x in values ==> Lists(schema[member.name].typ, x)
  }

  /** The trees that become a statement of the dialect. */
  predicate Renderable(schema: Schema, d: Dialect, c: Condition) {
    match c
    case Logical(_, l, r) => Renderable(schema, d, l) && Renderable(schema, d, r)
    case Not(x) => Renderable(schema, d, x)
    case FieldPredicate(f) =>
      f in schema && (schema[f].kind == BoolColumn || schema[f].kind == JsonBool || schema[f].kind == JsonExists)
    case Comparison(lhs, op, rhs) => ComparisonRenders(schema, d, lhs, op, rhs)
    case In(member, values) => InRenders(schema, member, values)
    case ElementIn(x, f) => f in schema && schema[f].kind == JsonList && x.Literal? && x.value.Str?
    case TextMatch(f, _, _) => f in schema
    case Regex(f, _) => f in schema
    case ListComprehension(_, f, _) => f in schema && schema[f].kind == JsonList
    case Constant(_) => true
  }

  lemma {:induction false} TagsRenderedIff(d: Dialect, base: nat, list: string, values: seq<ValueExpr>)
    ensures TagAlternatives(d, base, list, values).Ok? <==> forall x :: x in values ==> x.Literal? && x.value.Str?
    decreases |values|
  {
    if values != [] {
      TagsRenderedIff(d, base + 1, list, values[1..]);
      assert values == [values[0]] + values[1..];
    }
  }

  lemma {:induction false} ArgsRenderedIff(typ: FieldType, values: seq<ValueExpr>)
    ensures InArgs(typ, values).Ok? <==> forall x :: x in values ==> Lists(typ, x)
    decreases |values|
  {
    if values != [] {
      ArgsRenderedIff(typ, values[1..]);
      assert values[0] in values && forall x :: x in values <==> x == values[0] || x in values[1..];
      assert Lists(typ, values[0]) <==> InArgs(typ, [values[0]]).Ok?;
    }
  }

  lemma LeafRenderedIff(schema: Schema, d: Dialect, base: nat, c: Condition)
    requires IsLeaf(c)
    ensures RenderLeaf(schema, d, base, c).Ok? <==> Renderable(schema, d, c)
  {
    match c
    case Comparison(lhs, op, rhs) => ComparisonRenderedIff(schema, d, base, lhs, op, rhs);
    case In(member, values) => InRenderedIff(schema, d, base, member, values);
    case _ =>
  }

  lemma ComparisonRenderedIff(schema: Schema, d: Dialect, base: nat, lhs: ValueExpr, op: CompareOp, rhs: ValueExpr)
    ensures RenderComparison(schema, d, base, lhs, op, rhs).Ok? <==> ComparisonRenders(schema, d, lhs, op, rhs)
  {
  }

  lemma InRenderedIff(schema: Schema, d: Dialect, base: nat, member: ValueExpr, values: seq<ValueExpr>)
    ensures RenderIn(schema, d, base, member, values).Ok? <==> InRenders(schema, member, values)
  {
    if member.FieldRef? && member.name == "tag" {
      if ResolveAlias(schema, "tag").Some? {
        TagsRenderedIff(d, base, ResolveAlias(schema, "tag").value.name, values);
      }
    } else if member.FieldRef? && member.name in schema {
      ArgsRenderedIff(schema[member.name].typ, values);
    }
  }

  /** A tree is rendered exactly when it is renderable, however many arguments precede it. */
  lemma {:induction false} RenderedIff(schema: Schema, d: Dialect, base: nat, c: Condition)
    ensures Rendering(schema, d, base, c).Ok? <==> Renderable(schema, d, c)
    decreases c
  {
    match c
    case Logical(_, l, r) =>
      RenderedIff(schema, d, base, l);
      if Rendering(schema, d, base, l).Ok? {
        RenderedIff(schema, d, base + |Rendering(schema, d, base, l).value.args|, r);
      }
    case Not(x) => RenderedIff(schema, d, base, x);
    case _ => LeafRenderedIff(schema, d, base, c);
  }

  // Queries.

  /** The expression becomes a tree, and the tree a statement. */
  predicate Accepted(ctx: Context, d: Dialect, filter: Expr) {
    && Buildable(filter, ctx)
    && match BuildCondition(filter, ctx) case Ok(c) => Renderable(ctx.schema, d, c) case Err(_) => false
  }

  lemma CompiledIff(ctx: Context, d: Dialect, offset: nat, filter: Expr)
    ensures Compile(ctx, d, offset, filter).Ok? <==> Accepted(ctx, d, filter)
  {
    BuiltIff(filter, ctx);
    if BuildCondition(filter, ctx).Ok? { RenderedIff(ctx.schema, d, offset, BuildCondition(filter, ctx).value); }
  }

  /** A list of filters is appended exactly when each is accepted. */
  lemma {:induction false} AppendedIff(ctx: Context, d: Dialect, filters: seq<Expr>, q: Clauses)
    ensures Appended(ctx, d, filters, q).1.Ok? <==> forall f :: f in filters ==> Accepted(ctx, d, f)
    decreases |filters|
  {
    if filters != [] {
      CompiledIff(ctx, d, |q.args|, filters[0]);
      if Compile(ctx, d, |q.args|, filters[0]).Ok? {
        AppendedIff(ctx, d, filters[1..], AppendOne(q, Compile(ctx, d, |q.args|, filters[0]).value));
      }
      assert filters == [filters[0]] + filters[1..];
    }
  }

  /** The first filter that is not accepted ends it, with those before it appended. */
  lemma {:induction false} AppendedUpTo(ctx: Context, d: Dialect, filters: seq<Expr>, q: Clauses, k: nat)
    requires k < |filters| && !Accepted(ctx, d, filters[k]) && forall i :: 0 <= i < k ==> Accepted(ctx, d, filters[i])
    ensures Appended(ctx, d, filters, q).1.Err?
    ensures Appended(ctx, d, filters, q).0 == Appended(ctx, d, filters[..k], q).0
    decreases k
  {
    CompiledIff(ctx, d, |q.args|, filters[0]);
    if k > 0 {
      var s := Compile(ctx, d, |q.args|, filters[0]).value;
      assert filters[..k][1..] == filters[1..][..k - 1];
      AppendedUpTo(ctx, d, filters[1..], AppendOne(q, s), k - 1);
    }
  }
}
