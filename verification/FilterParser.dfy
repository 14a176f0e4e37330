/** From a type-checked CEL expression to the condition tree: constant folding, operand swapping and desugaring of set
    operations. */
module FilterParser {
  import opened Wrappers
  import opened Like
  import opened FilterIr
  import opened Float53

  // CEL expressions.

  datatype ArithOp = Add | Sub | Mul | Div | Mod

  datatype Fn =
    | AndFn | OrFn | NotFn
    | CompareFn(op: CompareOp)
    | InFn
    | TextFn(mode: TextMatchMode)
    | MatchesFn
    | SetsContains | SetsIntersects | SetsEquivalent
    | ArithFn(arith: ArithOp)
    | TimestampFn | DurationFn
    | SizeFn
    | AccessorFn(accessor: Accessor)
    | OtherFn(name: string)

  datatype Expr =
    | Const(v: Value)
    | Ident(name: string)
    | Call(fn: Fn, target: Option<Expr>, args: seq<Expr>)
    | ListExpr(elements: seq<Expr>)
    | Comprehension(kind: ComprehensionKind, range: Expr, pred: TagPredicate)

  /** The schema, the frozen evaluation time, and the library parsers of time literals. */
  datatype Context = Context(schema: Schema, now: int, nowClock: Clock,
                             parseTime: string -> Option<int>, parseDuration: string -> Option<int>)

  // 64-bit arithmetic.

  const TWO63: int := 0x8000_0000_0000_0000
  const TWO64: int := 0x1_0000_0000_0000_0000

  predicate FitsInt64(i: int) { -TWO63 <= i < TWO63 }

  /** Two's-complement wrap-around. */
  function Wrap64(i: int): (w: int)
    ensures FitsInt64(w) && (FitsInt64(i) ==> w == i)
  {
    (i + TWO63) % TWO64 - TWO63
  }

  function Abs(i: int): nat { if i >= 0 then i else -i }

  /** Division truncated toward zero, and the remainder with the dividend's sign. */
  function Quot(a: int, b: int): int
    requires b != 0
  {
    var q := Abs(a) / Abs(b);
    if (a >= 0) == (b > 0) then q else -q
  }

  function Rem(a: int, b: int): int
    requires b != 0
  {
    var r := Abs(a) % Abs(b);
    if a >= 0 then r else -r
  }

  lemma QuotRem(a: int, b: int)
    requires b != 0
    ensures a == Quot(a, b) * b + Rem(a, b)
    ensures Abs(Rem(a, b)) < Abs(b) && (Rem(a, b) == 0 || (Rem(a, b) > 0) == (a > 0))
  {
    var q, r := Abs(a) / Abs(b), Abs(a) % Abs(b);
    assert Abs(a) == q * Abs(b) + r;
    Signs(q, Abs(b));
  }

  lemma Signs(x: int, y: int)
    ensures -x * y == -(x * y) && x * -y == -(x * y) && -x * -y == x * y
  {
  }

  // Constant folding.

  function FoldArith(op: ArithOp, l: int, r: int): Result<Option<int>> {
    match op
    case Add => Ok(Some(Wrap64(l + r)))
    case Sub => Ok(Some(Wrap64(l - r)))
    case Mul => Ok(Some(Wrap64(l * r)))
    case Div => if r == 0 then Err(DivisionByZero) else Ok(Some(Wrap64(Quot(l, r))))
    case Mod => if r == 0 then Err(ModuloByZero) else Ok(Some(Rem(l, r)))
  }

  /** Folds to whole seconds or a plain integer; None when the expression is not such a constant. */
  function EvaluateNumeric(e: Expr, ctx: Context): Result<Option<int>> {
    match e
    case Const(Int(i)) => Ok(Some(i))
    case Const(Real(r)) => Ok(Some(Truncate(r)))
    case Ident(name) => Ok(if name == "now" then Some(ctx.now) else None)
    case Call(TimestampFn, _, args) =>
      if |args| != 1 then Err(TimestampExpectsOneArgument)
      else if !args[0].Const? then Err(TimestampOnlySupportsLiteralArguments)
      else (match args[0].v
            case Str(s) => if ctx.parseTime(s).Some? then Ok(ctx.parseTime(s)) else Err(InvalidTimestampLiteral)
            case Int(i) => Ok(Some(i))
            case _ => Err(TimestampNeedsStringOrInt))
    case Call(DurationFn, _, args) =>
      if |args| != 1 then Err(DurationExpectsOneArgument)
      else if !args[0].Const? then Err(DurationOnlySupportsLiteralArguments)
      else if !args[0].v.Str? then Err(DurationNeedsString)
      else if ctx.parseDuration(args[0].v.s).None? then Err(InvalidDurationLiteral)
      else Ok(ctx.parseDuration(args[0].v.s))
    case Call(ArithFn(op), _, args) =>
      if |args| != 2 then Err(ArithmeticRequiresTwoArguments) else
      var l :- EvaluateNumeric(args[0], ctx);
      if l.None? then Ok(None) else
      var r :- EvaluateNumeric(args[1], ctx);
      if r.None? then Ok(None) else FoldArith(op, l.value, r.value)
    case _ => Ok(None)
  }

  function EvaluateBool(e: Expr): Result<Option<bool>> {
    match e
    case Const(Bool(b)) => Ok(Some(b))
    case Call(NotFn, _, args) =>
      if |args| != 1 then Err(NotNeedsOneArgument) else
      var x :- EvaluateBool(args[0]);
      Ok(match x case Some(b) => Some(!b) case None => None)
    case _ => Ok(None)
  }

  function BuildAccessor(target: Expr, accessor: Accessor, args: seq<Expr>, ctx: Context): Result<ValueExpr> {
    if !target.Ident? then Err(TimestampAccessorRequiresAFieldTarget)
    else if args != [] then Err(TimezoneNotSupported)
    else if target.name == "now" then Ok(Literal(Int(CelPart(accessor, ctx.nowClock))))
    else if target.name !in ctx.schema then Err(UnknownIdentifier)
    else if ctx.schema[target.name].typ != TimestampType then Err(AccessorNeedsTimestamp)
    else Ok(FieldAccessor(target.name, accessor))
  }

  function BuildValue(e: Expr, ctx: Context): Result<ValueExpr> {
    if e.Ident? then
      if e.name == "now" then Ok(Literal(Int(ctx.now)))
      else if e.name !in ctx.schema then Err(UnknownIdentifier)
      else Ok(FieldRef(e.name))
    else if e.Const? then Ok(Literal(e.v))
    else
      var n :- EvaluateNumeric(e, ctx);
      if n.Some? then Ok(Literal(Int(n.value))) else
      var b :- EvaluateBool(e);
      if b.Some? then Ok(Literal(Bool(b.value)))
      else if e.Call? && e.target.Some? && e.fn.AccessorFn? then
        BuildAccessor(e.target.value, e.fn.accessor, e.args, ctx)
      else if e.Call? && e.fn.SizeFn? then
        if |e.args| != 1 then Err(SizeExpectsOneArgument) else
        var arg :- BuildValue(e.args[0], ctx);
        Ok(Size(arg))
      else Err(UnsupportedValueExpression)
  }

  // Comparisons.

  function CompareLiterals(l: Value, op: CompareOp, r: Value): Result<bool> {
    if (l.Int? || l.Real?) && (r.Int? || r.Real?) then Ok(CompareReals(op, Float(l), Float(r)))
    else if l.Str? && r.Str? then Ok(CompareTexts(op, l.s, r.s))
    else if l.Bool? && r.Bool? && (op == Eq || op == Neq) then Ok((l.b == r.b) == (op == Eq))
    else Err(UnsupportedConstantComparison)
  }

  function Float(v: Value): real
    requires v.Int? || v.Real?
  {
    match v case Int(i) => ToFloat(i) as real case Real(r) => r
  }

  function AllowedOp(schema: Schema, f: string, op: CompareOp): Result<()> {
    if f !in schema then Err(UnknownIdentifier)
    else match ResolveAlias(schema, f)
      case None => Err(InvalidAlias)
      case Some(def) =>
        if def.field.allowed.Some? && op !in def.field.allowed.value then Err(OperatorNotAllowedForField) else Ok(())
  }

  function BuildComparison(op: CompareOp, args: seq<Expr>, ctx: Context): Result<Condition> {
    if |args| != 2 then Err(ComparisonExpectsTwoArguments) else
    var left :- BuildValue(args[0], ctx);
    var right :- BuildValue(args[1], ctx);
    if left.Literal? && right.Literal? then
      var outcome :- CompareLiterals(left.value, op, right.value);
      Ok(Constant(outcome))
    else
      var (l, o, r) := if left.Literal? then (right, Mirror(op), left) else (left, op, right);
      if l.FieldRef? then
        var _ :- AllowedOp(ctx.schema, l.name, o);
        Ok(FilterIr.Comparison(l, o, r))
      else Ok(FilterIr.Comparison(l, o, r))
  }

  // Membership and text.

  function BuildValues(es: seq<Expr>, ctx: Context): Result<seq<ValueExpr>>
    decreases |es|
  {
    if es == [] then Ok([]) else
    var v :- BuildValue(es[0], ctx);
    var rest :- BuildValues(es[1..], ctx);
    Ok([v] + rest)
  }

  function BuildIn(args: seq<Expr>, ctx: Context): Result<Condition> {
    if |args| != 2 then Err(InOperatorExpectsTwoArguments)
    else if args[0].Ident? && args[0].name !in ctx.schema then Err(UnknownIdentifier)
    else if args[0].Ident? && ResolveAlias(ctx.schema, args[0].name).None? then Err(InvalidAlias)
    else if args[0].Ident? && args[1].ListExpr? then
      var values :- BuildValues(args[1].elements, ctx);
      Ok(In(FieldRef(args[0].name), values))
    else if args[1].Ident? then
      if args[1].name !in ctx.schema then Err(UnknownIdentifier) else
      var element :- BuildValue(args[0], ctx);
      Ok(ElementIn(element, args[1].name))
    else Err(InvalidUseOfInOperator)
  }

  /** The field and the string literal of `field.fn("text")`. */
  function TextOperand(target: Option<Expr>, args: seq<Expr>, ctx: Context): Result<(string, string)> {
    if target.None? || !target.value.Ident? then Err(TextMatchRequiresATarget)
    else if target.value.name !in ctx.schema then Err(UnknownIdentifier)
    else if !ctx.schema[target.value.name].supportsContains then Err(IdentifierDoesNotSupportTextMatching)
    else if |args| != 1 then Err(TextMatchExpectsExactlyOneArgument)
    else if !args[0].Const? || !args[0].v.Str? then Err(TextMatchArgumentMustBeAStringLiteral)
    else Ok((target.value.name, args[0].v.s))
  }

  // Set operations over a list field.

  function StringLiterals(es: seq<Expr>): Result<seq<string>>
    decreases |es|
  {
    if es == [] then Ok([])
    else if !es[0].Const? || !es[0].v.Str? then Err(SetNeedsStrings)
    else
      var rest :- StringLiterals(es[1..]);
      Ok([es[0].v.s] + rest)
  }

  function Membership(f: string, v: string): Condition { ElementIn(Literal(Str(v)), f) }

  function SizeEquals(f: string, n: int): Condition {
    FilterIr.Comparison(Size(FieldRef(f)), Eq, Literal(Int(n)))
  }

  function MapMembership(f: string, values: seq<string>): (cs: seq<Condition>)
    ensures |cs| == |values| && forall i :: 0 <= i < |cs| ==> cs[i] == Membership(f, values[i])
  {
    if values == [] then [] else [Membership(f, values[0])] + MapMembership(f, values[1..])
  }

  /** Left-nested: ((c0 op c1) op c2) ... */
  function CombineConditions(op: LogicalOp, conds: seq<Condition>): Condition
    requires conds != []
    decreases |conds|
  {
    if |conds| == 1 then conds[0]
    else Logical(op, CombineConditions(op, conds[..|conds| - 1]), conds[|conds| - 1])
  }

  /** Keeps the first occurrence of every string. */
  function DistinctStrings(values: seq<string>): (out: seq<string>)
    ensures forall v :: v in out <==> v in values
    ensures NoDuplicates(out)
    decreases |values|
  {
    if values == [] then []
    else
      var before := DistinctStrings(values[..|values| - 1]);
      var last := values[|values| - 1];
      assert forall v :: v in values <==> v in values[..|values| - 1] || v == last;
      if last in before then before else before + [last]
  }

  predicate NoDuplicates(s: seq<string>) {
    forall i, j :: 0 <= i < j < |s| ==> s[i] != s[j]
  }

  method MapConditions(f: string, values: seq<string>) returns (conds: seq<Condition>)
    ensures conds == MapMembership(f, values)
  {
    conds := [];
    for i := 0 to |values|
      invariant |conds| == i && forall j :: 0 <= j < i ==> conds[j] == Membership(f, values[j])
    {
      conds := conds + [Membership(f, values[i])];
    }
  }

  method Combine(op: LogicalOp, conds: seq<Condition>) returns (result: Condition)
    requires conds != []
    ensures result == CombineConditions(op, conds)
  {
    result := conds[0];
    for i := 1 to |conds|
      invariant result == CombineConditions(op, conds[..i])
    {
      assert conds[..i + 1][..i] == conds[..i];
      result := Logical(op, result, conds[i]);
    }
    assert conds[..|conds|] == conds;
  }

  method Distinct(values: seq<string>) returns (out: seq<string>)
    ensures out == DistinctStrings(values)
  {
    var seen := map[];
    out := [];
    for i := 0 to |values|
      invariant out == DistinctStrings(values[..i])
      invariant forall v :: v in seen <==> v in out
    {
      assert values[..i + 1][..i] == values[..i];
      if values[i] !in seen {
        seen := seen[values[i] := true];
        out := out + [values[i]];
      }
    }
    assert values[..|values|] == values;
  }

  /** The operands of an IN list, stopping at the first that cannot be built. */
  method CollectValues(es: seq<Expr>, ctx: Context) returns (r: Result<seq<ValueExpr>>)
    ensures r == BuildValues(es, ctx)
  {
    var values := [];
    assert es[0..] == es;
    for i := 0 to |es|
      invariant Finishes(BuildValues(es, ctx), values, BuildValues(es[i..], ctx))
    {
      assert es[i..][1..] == es[i + 1..];
      var v :- BuildValue(es[i], ctx);
      values := values + [v];
    }
    assert es[|es|..] == [] && values + [] == values;
    r := Ok(values);
  }

  /** The literals of a set operation, stopping at the first that is not a string. */
  method CollectStrings(es: seq<Expr>) returns (r: Result<seq<string>>)
    ensures r == StringLiterals(es)
  {
    var values := [];
    assert es[0..] == es;
    for i := 0 to |es|
      invariant Finishes(StringLiterals(es), values, StringLiterals(es[i..]))
    {
      assert es[i..][1..] == es[i + 1..];
      if !es[i].Const? || !es[i].v.Str? {
        return Err(SetNeedsStrings);
      }
      values := values + [es[i].v.s];
    }
    assert es[|es|..] == [] && values + [] == values;
    r := Ok(values);
  }

  function BuildSet(fn: Fn, args: seq<Expr>, ctx: Context): Result<Condition>
    requires fn.SetsContains? || fn.SetsIntersects? || fn.SetsEquivalent?
  {
    if |args| != 2 then Err(SetOperationExpectsTwoArguments)
    else if !args[0].Ident? then Err(SetNeedsFieldFirst)
    else if args[0].name !in ctx.schema then Err(UnknownIdentifier)
    else if ctx.schema[args[0].name].kind != JsonList then Err(SetNeedsListField)
    else if !args[1].ListExpr? then Err(SetNeedsListLiteral)
    else
      var values :- StringLiterals(args[1].elements);
      Ok(SetCondition(fn, args[0].name, values))
  }

  function SetCondition(fn: Fn, f: string, values: seq<string>): Condition
    requires fn.SetsContains? || fn.SetsIntersects? || fn.SetsEquivalent?
  {
    match fn
    case SetsContains =>
      if values == [] then Constant(true) else CombineConditions(LogicalAnd, MapMembership(f, values))
    case SetsIntersects =>
      if values == [] then Constant(false) else CombineConditions(LogicalOr, MapMembership(f, values))
    case SetsEquivalent =>
      var distinct := DistinctStrings(values);
      if distinct == [] then SizeEquals(f, 0)
      else Logical(LogicalAnd, CombineConditions(LogicalAnd, MapMembership(f, distinct)), SizeEquals(f, |distinct|))
  }

  function BuildComprehension(kind: ComprehensionKind, range: Expr, pred: TagPredicate,
                              ctx: Context): Result<Condition> {
    if !range.Ident? then Err(RangeNeedsField)
    else if range.name !in ctx.schema then Err(UnknownFieldInComprehension)
    else if ctx.schema[range.name].kind != JsonList then Err(FieldDoesNotSupportComprehension)
    else Ok(ListComprehension(kind, range.name, pred))
  }

  function BuildCondition(e: Expr, ctx: Context): Result<Condition> {
    match e
    case Const(v) => if v.Bool? then Ok(Constant(v.b)) else Err(FilterNotBoolean)
    case Ident(name) =>
      if name !in ctx.schema then Err(UnknownIdentifier)
      else if ctx.schema[name].typ != BoolType then Err(IdentifierIsNotBoolean)
      else Ok(FieldPredicate(name))
    case Call(fn, target, args) =>
      (match fn
       case AndFn =>
         if |args| != 2 then Err(LogicalANDExpectsTwoArguments) else
         var l :- BuildCondition(args[0], ctx);
         var r :- BuildCondition(args[1], ctx);
         Ok(Logical(LogicalAnd, l, r))
       case OrFn =>
         if |args| != 2 then Err(LogicalORExpectsTwoArguments) else
         var l :- BuildCondition(args[0], ctx);
         var r :- BuildCondition(args[1], ctx);
         Ok(Logical(LogicalOr, l, r))
       case NotFn =>
         if |args| != 1 then Err(LogicalNOTExpectsOneArgument) else
         var x :- BuildCondition(args[0], ctx);
         Ok(Not(x))
       case CompareFn(op) => BuildComparison(op, args, ctx)
       case InFn => BuildIn(args, ctx)
       case TextFn(mode) => var t :- TextOperand(target, args, ctx); Ok(TextMatch(t.0, mode, t.1))
       case MatchesFn => var t :- TextOperand(target, args, ctx); Ok(Regex(t.0, t.1))
       case SetsContains => BuildSet(fn, args, ctx)
       case SetsIntersects => BuildSet(fn, args, ctx)
       case SetsEquivalent => BuildSet(fn, args, ctx)
       case _ => Err(UnsupportedCallExpression))
    case Comprehension(kind, range, pred) => BuildComprehension(kind, range, pred, ctx)
    case ListExpr(_) => Err(UnsupportedTopLevelExpression)
  }
}
