/** What a CEL expression itself means on a row, and the proof that building the condition tree keeps it. */
module FilterSource {
  import opened Wrappers
  import opened Like
  import opened FilterIr
  import opened FilterParser
  import opened FilterConstants

  /** An operand of a comparison: a constant, or something read from the row. */
  datatype Operand = Known(v: Value) | FromRow(x: ValueExpr)

  /** The row expression an operand denotes, when it denotes one. */
  function Denoted(e: Expr): ValueExpr {
    match e
    case Ident(name) => FieldRef(name)
    case Call(AccessorFn(accessor), Some(Ident(f)), _) => FieldAccessor(f, accessor)
    case Call(SizeFn, _, args) =>
      Size(if |args| == 1 && args[0].Ident? && args[0].name != "now" then FieldRef(args[0].name) else Literal(Null))
    case _ => Literal(Null)
  }

  /** What CEL reads from the row: a boolean kept in JSON is true or false, whatever is stored. */
  function CelRead(schema: Schema, row: Row, x: ValueExpr): Value {
    match x
    case FieldRef(f) =>
      if f !in schema then Null else
      (match schema[f].kind
       case JsonBool => Bool(row.Flag(f) == JsonTrue)
       case JsonExists => Bool(row.Path(f) == Present)
       case _ => row.Scalar(f))
    case Size(arg) => if arg.FieldRef? then SizeValue(schema, row, arg.name) else Null
    case FieldAccessor(f, accessor) => AccessorValue(accessor, row.Clock(f))
    case Literal(v) => v
  }

  predicate JsonField(schema: Schema, x: ValueExpr) {
    x.FieldRef? && x.name in schema && (schema[x.name].kind == JsonBool || schema[x.name].kind == JsonExists)
  }

  predicate IsColumn(schema: Schema, x: ValueExpr) { x.FieldRef? && x.name in schema && !JsonField(schema, x) }

  /** A value against a constant; a column compared with null is tested for it. */
  function CelCompareTo(schema: Schema, row: Row, x: ValueExpr, op: CompareOp, v: Value): Tri {
    if v == Null && IsColumn(schema, x) then NullTest(op, CelRead(schema, row, x))
    else Compare(op, CelRead(schema, row, x), v)
  }

  /** `a op b`, read off the row whatever the database. */
  function CelCompare(schema: Schema, row: Row, a: Operand, op: CompareOp, b: Operand): Tri {
    match (a, b)
    case (Known(u), Known(v)) => Compare(op, u, v)
    case (FromRow(x), Known(v)) => CelCompareTo(schema, row, x, op, v)
    case (Known(u), FromRow(y)) =>
      if u == Null && IsColumn(schema, y) then NullTest(op, CelRead(schema, row, y))
      else Compare(op, u, CelRead(schema, row, y))
    case (FromRow(x), FromRow(y)) => Compare(op, CelRead(schema, row, x), CelRead(schema, row, y))
  }

  function OperandOf(e: Expr, ctx: Context): Operand {
    match CelConst(e, ctx) case Some(v) => Known(v) case None => FromRow(Denoted(e))
  }

  /** Swapping operands and mirroring the operator is harmless. */
  lemma MirrorCorrect(op: CompareOp, a: Value, b: Value)
    ensures Compare(op, a, b) == Compare(Mirror(op), b, a)
  {
  }

  // Sets and loops.

  /** CEL's `exists`, `all` and `exists_one` macros as the loops they expand to. */
  function ExistsLoop(tags: seq<string>, pred: TagPredicate, acc: bool): bool {
    if tags == [] then acc else ExistsLoop(tags[1..], pred, acc || TagMatches(pred, tags[0]))
  }

  function AllLoop(tags: seq<string>, pred: TagPredicate, acc: bool): bool {
    if tags == [] then acc else AllLoop(tags[1..], pred, acc && TagMatches(pred, tags[0]))
  }

  function CountLoop(tags: seq<string>, pred: TagPredicate, acc: nat): nat {
    if tags == [] then acc else CountLoop(tags[1..], pred, if TagMatches(pred, tags[0]) then acc + 1 else acc)
  }

  predicate CelComprehends(kind: ComprehensionKind, tags: seq<string>, pred: TagPredicate) {
    match kind
    case Exists => ExistsLoop(tags, pred, false)
    case All => AllLoop(tags, pred, true)
    case ExistsOne => CountLoop(tags, pred, 0) == 1
  }

  lemma {:induction false} LoopsCorrect(tags: seq<string>, pred: TagPredicate, acc: bool, count: nat)
    ensures ExistsLoop(tags, pred, acc) <==> acc || exists t :: t in tags && TagMatches(pred, t)
    ensures AllLoop(tags, pred, acc) <==> acc && forall t :: t in tags ==> TagMatches(pred, t)
    ensures CountLoop(tags, pred, count) == count + CountMatching(tags, pred)
    decreases |tags|
  {
    if tags != [] {
      var hit := TagMatches(pred, tags[0]);
      LoopsCorrect(tags[1..], pred, acc || hit, count);
      LoopsCorrect(tags[1..], pred, acc && hit, if hit then count + 1 else count);
      assert tags == [tags[0]] + tags[1..];
      if t :| t in tags && TagMatches(pred, t) {
        assert hit || t in tags[1..];
      }
    }
  }

  /** The tree's comprehension is CEL's, except that `all` is false on the empty list. */
  lemma ComprehensionAgreesIff(kind: ComprehensionKind, tags: seq<string>, pred: TagPredicate)
    ensures Comprehends(kind, tags, pred) == CelComprehends(kind, tags, pred) <==> !(kind == All && tags == [])
  {
    LoopsCorrect(tags, pred, kind == All, 0);
  }

  // Set operations.

  predicate CelSet(fn: Fn, field: set<string>, values: set<string>)
    requires fn.SetsContains? || fn.SetsIntersects? || fn.SetsEquivalent?
  {
    match fn
    case SetsContains => values <= field
    case SetsIntersects => values * field != {}
    case SetsEquivalent => values == field
  }

  lemma MembershipMeaning(schema: Schema, d: Dialect, w: World, row: Row, f: string, v: string)
    ensures Meaning(schema, d, w, row, Membership(f, v)) == Tri2(v in SetOf(row.List(f)))
  {
  }

  lemma SplitLast(values: seq<string>, tags: set<string>)
    requires values != []
    ensures var init, last := SetOf(values[..|values| - 1]), values[|values| - 1];
      && SetOf(values) == init + {last}
      && (SetOf(values) <= tags <==> init <= tags && last in tags)
      && (SetOf(values) * tags != {} <==> init * tags != {} || last in tags)
  {
    var n := |values| - 1;
    assert values == values[..n] + [values[n]];
    assert SetOf(values) == SetOf(values[..n]) + {values[n]};
    assert SetOf(values) * tags == SetOf(values[..n]) * tags + {values[n]} * tags;
    if values[n] in tags {
      assert values[n] in SetOf(values) * tags;
    }
  }

  lemma {:induction false} CombinedMembership(schema: Schema, d: Dialect, w: World, row: Row, f: string,
                                              values: seq<string>, conds: seq<Condition>)
    requires values != [] && |conds| == |values|
    requires forall i :: 0 <= i < |conds| ==> conds[i] == Membership(f, values[i])
    ensures var tags := SetOf(row.List(f));
      && Meaning(schema, d, w, row, CombineConditions(LogicalAnd, conds)) == Tri2(SetOf(values) <= tags)
      && Meaning(schema, d, w, row, CombineConditions(LogicalOr, conds)) == Tri2(SetOf(values) * tags != {})
    decreases |values|
  {
    var n, tags := |values| - 1, SetOf(row.List(f));
    MembershipMeaning(schema, d, w, row, f, values[n]);
    SplitLast(values, tags);
    if n > 0 {
      CombinedMembership(schema, d, w, row, f, values[..n], conds[..n]);
    } else {
      assert SetOf(values[..n]) == {};
    }
  }

  lemma {:induction false} SetSize(s: seq<string>)
    ensures |SetOf(s)| <= |s|
    ensures |SetOf(s)| == |s| <==> NoDuplicates(s)
    decreases |s|
  {
    if s != [] {
      var n := |s| - 1;
      var init, last := s[..n], s[n];
      assert s == init + [last];
      SetSize(init);
      assert SetOf(s) == SetOf(init) + {last};
      if last in SetOf(init) {
        assert SetOf(s) == SetOf(init);
        var i :| 0 <= i < n && init[i] == last;
        assert s[i] == s[n];
      } else {
        assert |SetOf(s)| == |SetOf(init)| + 1;
        assert NoDuplicates(init) <==> NoDuplicates(s);
      }
    }
  }

  lemma SubsetOfEqualSize(a: set<string>, b: set<string>)
    requires a <= b && |a| == |b|
    ensures a == b
  {
    assert b == a + (b - a);
    assert |b| == |a| + |b - a|;
  }

  /** Each desugared set operation is the set operation, on every list; only `equivalent` can miss, and it does so
      exactly when the sets are equal but the field repeats an element. */
  lemma SetConditionCorrectIff(schema: Schema, d: Dialect, w: World, row: Row, fn: Fn, f: string, values: seq<string>)
    requires fn.SetsContains? || fn.SetsIntersects? || fn.SetsEquivalent?
    requires f in schema && schema[f].kind == JsonList
    ensures Meaning(schema, d, w, row, SetCondition(fn, f, values))
         == Tri2(CelSet(fn, SetOf(row.List(f)), SetOf(values)))
       <==> !(fn.SetsEquivalent? && SetOf(row.List(f)) == SetOf(values) && !NoDuplicates(row.List(f)))
  {
    var tags := row.List(f);
    if values == [] { assert SetOf(values) == {}; }
    match fn
    case SetsContains => if values != [] { CombinedMembership(schema, d, w, row, f, values, MapMembership(f, values)); }
    case SetsIntersects =>
      if values != [] { CombinedMembership(schema, d, w, row, f, values, MapMembership(f, values)); }
    case SetsEquivalent =>
      var distinct := DistinctStrings(values);
      assert SetOf(distinct) == SetOf(values);
      SetSize(distinct);
      SetSize(tags);
      SizeEqualsMeaning(schema, d, w, row, f, |distinct|);
      if distinct == [] {
        assert SetOf(tags) == {} <==> tags == [] by { if tags != [] { assert tags[0] in SetOf(tags); } }
      } else {
        CombinedMembership(schema, d, w, row, f, distinct, MapMembership(f, distinct));
        if SetOf(distinct) <= SetOf(tags) && |tags| == |distinct| {
          SubsetSize(SetOf(distinct), SetOf(tags));
          SubsetOfEqualSize(SetOf(distinct), SetOf(tags));
        }
      }
  }

  lemma SizeEqualsMeaning(schema: Schema, d: Dialect, w: World, row: Row, f: string, n: nat)
    requires f in schema && schema[f].kind == JsonList
    ensures Meaning(schema, d, w, row, SizeEquals(f, n)) == Tri2(|row.List(f)| == n)
  {
  }

  // Where a dialect's answer and CEL's can differ.

  /** The dialect reads the flag as CEL does: it is stored, or its rendering takes anything but true for false, or
      MySQL's null literal falls on the right side. */
  predicate FlagFaithful(d: Dialect, field: string, op: CompareOp, want: bool, flag: Flag) {
    || flag == JsonTrue || flag == JsonFalse
    || (d == SQLite && field != "has_task_list")
    || (d != SQLite && field == "hidden" && FlagValue(d, flag) == Null)
    || (d == MySQL && flag == JsonNull && (want || op == Lte || op == Gt))
  }

  lemma FlagFaithfulIff(d: Dialect, field: string, op: CompareOp, want: bool, flag: Flag)
    ensures FlagComparison(d, field, op, want, flag) == Compare(op, Bool(flag == JsonTrue), Bool(want))
       <==> FlagFaithful(d, field, op, want, flag)
  {
  }

  /** CEL's text matches tell upper case from lower. */
  function CelText(mode: TextMatchMode, v: Value, value: string): Tri {
    if v.Str? then Tri2(TextMatches(mode, v.s, value)) else U
  }

  /** Folding case makes no match that was not there. */
  predicate FoldHarmless(fold: char -> char, mode: TextMatchMode, v: Value, value: string) {
    v.Str? && TextMatches(mode, FoldAll(fold, v.s), FoldAll(fold, value)) ==> TextMatches(mode, v.s, value)
  }

  lemma FoldSlice(fold: char -> char, s: string, k: nat)
    requires k <= |s|
    ensures FoldAll(fold, s)[k..] == FoldAll(fold, s[k..])
  {
  }

  /** It never loses one. */
  lemma FoldKeepsMatch(fold: char -> char, mode: TextMatchMode, text: string, value: string)
    requires TextMatches(mode, text, value)
    ensures TextMatches(mode, FoldAll(fold, text), FoldAll(fold, value))
  {
    if mode == Contains {
      var k :| 0 <= k <= |text| && StartsWith(text[k..], value);
      FoldSlice(fold, text, k);
      assert StartsWith(FoldAll(fold, text)[k..], FoldAll(fold, value));
    }
  }

  lemma FoldHarmlessIff(w: World, mode: TextMatchMode, v: Value, value: string)
    ensures FoldedMatch(w, mode, v, value) == CelText(mode, v, value) <==> FoldHarmless(w.fold, mode, v, value)
  {
    if v.Str? && TextMatches(mode, v.s, value) {
      FoldKeepsMatch(w.fold, mode, v.s, value);
    }
  }

  /** No other character folds like one of the value's. */
  ghost predicate Caseless(fold: char -> char, value: string) {
    forall i, c: char :: 0 <= i < |value| && fold(c) == fold(value[i]) ==> c == value[i]
  }

  lemma MatchesItself(mode: TextMatchMode, text: string, value: string)
    requires |text| == |value|
    ensures TextMatches(mode, text, value) <==> text == value
  {
    assert text[0..] == text;
    if text == value { assert StartsWith(text[0..], value); }
    if mode == Contains && TextMatches(mode, text, value) {
      var k :| 0 <= k <= |text| && StartsWith(text[k..], value);
    }
  }

  /** Folding is harmless for a value on every text exactly when the value has no case. */
  lemma CaselessIff(fold: char -> char, mode: TextMatchMode, value: string)
    ensures (forall text: string :: FoldHarmless(fold, mode, Str(text), value)) <==> Caseless(fold, value)
  {
    if Caseless(fold, value) {
      forall text: string
        ensures FoldHarmless(fold, mode, Str(text), value)
      {
        CaselessHarmless(fold, mode, text, value);
      }
    } else {
      var i, c: char :| 0 <= i < |value| && fold(c) == fold(value[i]) && c != value[i];
      var text := value[i := c];
      assert FoldAll(fold, text) == FoldAll(fold, value);
      MatchesItself(mode, FoldAll(fold, text), FoldAll(fold, value));
      MatchesItself(mode, text, value);
      assert !FoldHarmless(fold, mode, Str(text), value);
    }
  }

  lemma CaselessHarmless(fold: char -> char, mode: TextMatchMode, text: string, value: string)
    requires Caseless(fold, value)
    ensures FoldHarmless(fold, mode, Str(text), value)
  {
    if TextMatches(mode, FoldAll(fold, text), FoldAll(fold, value)) {
      match mode
      case Prefix => UnfoldPrefix(fold, text, value);
      case Suffix =>
        FoldSlice(fold, text, |text| - |value|);
        UnfoldPrefix(fold, text[|text| - |value|..], value);
      case Contains =>
        var k :| 0 <= k <= |text| && StartsWith(FoldAll(fold, text)[k..], FoldAll(fold, value));
        FoldSlice(fold, text, k);
        UnfoldPrefix(fold, text[k..], value);
    }
  }

  lemma UnfoldPrefix(fold: char -> char, text: string, value: string)
    requires Caseless(fold, value) && FoldAll(fold, value) <= FoldAll(fold, text)
    ensures value <= text
  {
    forall i | 0 <= i < |value|
      ensures value[i] == text[i]
    {
      assert FoldAll(fold, value)[i] == FoldAll(fold, text)[i];
    }
  }

  // Operands.

  /** Two row expressions no comparison tells apart. */
  predicate SameReading(x: ValueExpr, y: ValueExpr) {
    x == y || (x.Size? && y.Size? && !x.arg.FieldRef? && !y.arg.FieldRef?)
  }

  lemma ValueCorrect(e: Expr, ctx: Context)
    requires ExactArith(e, ctx) && BuildValue(e, ctx).Ok?
    ensures var x := BuildValue(e, ctx).value;
      if x.Literal? then CelConst(e, ctx).Some? && SameValue(x.value, CelConst(e, ctx).value)
      else CelConst(e, ctx) == None && SameReading(x, Denoted(e))
  {
    if e.Call? {
      var n, b := EvaluateNumeric(e, ctx).value, EvaluateBool(e).value;
      if n.Some? {
        NumericFoldCorrect(e, ctx);
      } else if b.Some? {
        BoolFoldCorrect(e, ctx);
      }
    }
  }

  /** A JSON boolean is compared with a boolean constant, and its flag read faithfully. */
  predicate FlagSafe(schema: Schema, d: Dialect, row: Row, x: ValueExpr, op: CompareOp, v: Value) {
    JsonField(schema, x) ==>
      v.Bool? && (schema[x.name].kind == JsonBool ==> FlagFaithful(d, x.name, op, v.b, row.Flag(x.name)))
  }

  /** Something is compared with a constant: two row expressions the renderer refuses. */
  predicate OperandsSafe(schema: Schema, d: Dialect, row: Row, a: Operand, op: CompareOp, b: Operand) {
    match (a, b)
    case (Known(_), Known(_)) => true
    case (FromRow(x), Known(v)) => FlagSafe(schema, d, row, x, op, v)
    case (Known(u), FromRow(y)) => FlagSafe(schema, d, row, y, Mirror(op), u)
    case (FromRow(_), FromRow(_)) => false
  }

  /** Two constants are compared as the literals they were built into. */
  predicate ConstantsSafe(op: CompareOp, a: Expr, b: Expr, ctx: Context) {
    match (BuildValue(a, ctx), BuildValue(b, ctx))
    case (Ok(Literal(u)), Ok(Literal(v))) => LiteralsSafe(u, op, v)
    case _ => true
  }

  predicate SafeComparison(ctx: Context, d: Dialect, row: Row, op: CompareOp, a: Expr, b: Expr) {
    && ExactArith(a, ctx) && ExactArith(b, ctx) && ConstantsSafe(op, a, b, ctx)
    && OperandsSafe(ctx.schema, d, row, OperandOf(a, ctx), op, OperandOf(b, ctx))
  }

  lemma RowComparisonCorrect(schema: Schema, d: Dialect, row: Row, x: ValueExpr, z: ValueExpr, op: CompareOp, u: Value,
                             v: Value)
    requires !x.Literal? && SameReading(x, z) && SameValue(u, v) && FlagSafe(schema, d, row, z, op, v)
    ensures ComparisonMeaning(schema, d, row, x, op, u) == CelCompareTo(schema, row, z, op, v)
  {
    SameComparisons(op, u, v, CelRead(schema, row, z));
    if JsonField(schema, x) {
      FlagFaithfulIff(d, x.name, op, v.b, row.Flag(x.name));
    }
  }

  lemma MirroredComparison(schema: Schema, row: Row, op: CompareOp, u: Value, y: ValueExpr)
    ensures CelCompare(schema, row, Known(u), op, FromRow(y)) == CelCompareTo(schema, row, y, Mirror(op), u)
  {
    MirrorCorrect(op, u, CelRead(schema, row, y));
  }

  lemma ComparisonBuildCorrect(d: Dialect, w: World, row: Row, op: CompareOp, args: seq<Expr>, ctx: Context)
    requires BuildComparison(op, args, ctx).Ok? && SafeComparison(ctx, d, row, op, args[0], args[1])
    ensures Meaning(ctx.schema, d, w, row, BuildComparison(op, args, ctx).value)
         == CelCompare(ctx.schema, row, OperandOf(args[0], ctx), op, OperandOf(args[1], ctx))
  {
    hide BuildValue, Compare, CelConst, SameValue;
    var left, right := BuildValue(args[0], ctx).value, BuildValue(args[1], ctx).value;
    var u, v := CelConst(args[0], ctx), CelConst(args[1], ctx);
    ValueCorrect(args[0], ctx);
    ValueCorrect(args[1], ctx);
    if left.Literal? && right.Literal? {
      LiteralsCorrectIff(left.value, op, right.value);
      SameComparisons(op, left.value, u.value, right.value);
      SameComparisons(op, right.value, v.value, u.value);
    } else if left.Literal? {
      RowComparisonCorrect(ctx.schema, d, row, right, Denoted(args[1]), Mirror(op), left.value, u.value);
      MirroredComparison(ctx.schema, row, op, u.value, Denoted(args[1]));
    } else {
      RowComparisonCorrect(ctx.schema, d, row, left, Denoted(args[0]), op, right.value, v.value);
    }
  }

  function ConstLiterals(es: seq<Expr>, ctx: Context): seq<ValueExpr>
    decreases |es|
  {
    if es == [] then []
    else [Literal(match CelConst(es[0], ctx) case Some(v) => v case None => Null)] + ConstLiterals(es[1..], ctx)
  }

  predicate ConstOperand(e: Expr, ctx: Context) { ExactArith(e, ctx) && CelConst(e, ctx).Some? }

  /** Membership does not tell two lists of the same values apart. */
  predicate SameLiterals(xs: seq<ValueExpr>, ys: seq<ValueExpr>) {
    |xs| == |ys| && forall i :: 0 <= i < |xs| ==>
      xs[i].Literal? && ys[i].Literal? && SameValue(xs[i].value, ys[i].value)
  }

  lemma {:induction false} SameMembers(v: Value, tags: seq<string>, xs: seq<ValueExpr>, ys: seq<ValueExpr>)
    requires SameLiterals(xs, ys)
    ensures MemberOf(v, LiteralValues(xs)) == MemberOf(v, LiteralValues(ys))
    ensures AnyTag(tags, xs) == AnyTag(tags, ys)
    decreases |xs|
  {
    if xs != [] {
      SameComparisons(Eq, xs[0].value, ys[0].value, v);
      SameMembers(v, tags, xs[1..], ys[1..]);
      assert LiteralValues(xs) == [xs[0].value] + LiteralValues(xs[1..]);
      assert LiteralValues(ys) == [ys[0].value] + LiteralValues(ys[1..]);
    }
  }

  lemma {:induction false} ValuesCorrect(es: seq<Expr>, ctx: Context)
    requires BuildValues(es, ctx).Ok? && forall e :: e in es ==> ConstOperand(e, ctx)
    ensures SameLiterals(BuildValues(es, ctx).value, ConstLiterals(es, ctx))
    decreases |es|
  {
    if es != [] {
      assert ConstOperand(es[0], ctx);
      ValueCorrect(es[0], ctx);
      ValuesCorrect(es[1..], ctx);
    }
  }

  // Whole expressions.

  function FieldOf(e: Expr): string { if e.Ident? then e.name else "" }

  function TextOf(args: seq<Expr>): string {
    if |args| > 0 && args[0].Const? && args[0].v.Str? then args[0].v.s else ""
  }

  function StringsOf(e: Expr): set<string> {
    if !e.ListExpr? then {}
    else set i | 0 <= i < |e.elements| && e.elements[i].Const? && e.elements[i].v.Str? :: e.elements[i].v.s
  }

  /** The value of a CEL filter on a row, whatever the database. Its `&&`, `||` and `!` are Kleene's. */
  function CelMeaning(ctx: Context, regex: (string, string) -> bool, row: Row, e: Expr): Tri
    decreases e
  {
    match e
    case Const(v) => Tri2(v == Bool(true))
    case Ident(f) => if f in ctx.schema then PredicateMeaning(ctx.schema[f].kind, row, f) else U
    case Comprehension(kind, range, pred) => Tri2(CelComprehends(kind, row.List(FieldOf(range)), pred))
    case ListExpr(_) => U
    case Call(fn, target, args) =>
      (match fn
       case AndFn =>
         if |args| != 2 then U
         else And3(CelMeaning(ctx, regex, row, args[0]), CelMeaning(ctx, regex, row, args[1]))
       case OrFn =>
         if |args| != 2 then U
         else Or3(CelMeaning(ctx, regex, row, args[0]), CelMeaning(ctx, regex, row, args[1]))
       case NotFn => if |args| != 1 then U else Not3(CelMeaning(ctx, regex, row, args[0]))
       case CompareFn(op) =>
         if |args| != 2 then U else CelCompare(ctx.schema, row, OperandOf(args[0], ctx), op, OperandOf(args[1], ctx))
       case InFn => if |args| != 2 then U else CelIn(ctx, row, args[0], args[1])
       case TextFn(mode) => if target.None? then U else CelText(mode, row.Scalar(FieldOf(target.value)), TextOf(args))
       case MatchesFn => if target.None? then U else RegexMatch(regex, row.Scalar(FieldOf(target.value)), TextOf(args))
       case SetsContains => CelSetMeaning(row, fn, args)
       case SetsIntersects => CelSetMeaning(row, fn, args)
       case SetsEquivalent => CelSetMeaning(row, fn, args)
       case _ => U)
  }

  function CelIn(ctx: Context, row: Row, a: Expr, b: Expr): Tri {
    if a.Ident? && b.ListExpr? then InMeaning(ctx.schema, row, FieldRef(a.name), ConstLiterals(b.elements, ctx))
    else match CelConst(a, ctx)
      case Some(Str(s)) => Tri2(s in row.List(FieldOf(b)))
      case _ => F
  }

  function CelSetMeaning(row: Row, fn: Fn, args: seq<Expr>): Tri
    requires fn.SetsContains? || fn.SetsIntersects? || fn.SetsEquivalent?
  {
    if |args| != 2 then U else Tri2(CelSet(fn, SetOf(row.List(FieldOf(args[0]))), StringsOf(args[1])))
  }

  /** The expression avoids the cases where folding, desugaring or the dialect departs from CEL on this row. */
  predicate Faithful(ctx: Context, d: Dialect, w: World, row: Row, e: Expr)
    decreases e
  {
    match e
    case Call(fn, target, args) =>
      (match fn
       case AndFn => forall i :: 0 <= i < |args| ==> Faithful(ctx, d, w, row, args[i])
       case OrFn => forall i :: 0 <= i < |args| ==> Faithful(ctx, d, w, row, args[i])
       case NotFn => forall i :: 0 <= i < |args| ==> Faithful(ctx, d, w, row, args[i])
       case CompareFn(op) => |args| == 2 ==> SafeComparison(ctx, d, row, op, args[0], args[1])
       case InFn =>
         |args| == 2 ==>
           if args[0].Ident? && args[1].ListExpr? then forall x :: x in args[1].elements ==> ConstOperand(x, ctx)
           else ExactArith(args[0], ctx)
       case TextFn(mode) =>
         target.Some? ==> FoldHarmless(w.fold, mode, row.Scalar(FieldOf(target.value)), TextOf(args))
       case SetsEquivalent =>
         |args| == 2 ==>
           NoDuplicates(row.List(FieldOf(args[0]))) || SetOf(row.List(FieldOf(args[0]))) != StringsOf(args[1])
       case _ => true)
    case Comprehension(kind, range, _) => !(kind == All && row.List(FieldOf(range)) == [])
    case _ => true
  }

  lemma {:induction false} StringLiteralsCorrect(es: seq<Expr>)
    requires StringLiterals(es).Ok?
    ensures SetOf(StringLiterals(es).value) == StringsOf(ListExpr(es))
    decreases |es|
  {
    if es == [] {
      assert SetOf<string>([]) == {};
    } else {
      StringLiteralsCorrect(es[1..]);
      var rest := StringLiterals(es[1..]).value;
      assert SetOf([es[0].v.s] + rest) == {es[0].v.s} + SetOf(rest);
      assert StringsOf(ListExpr(es)) == {es[0].v.s} + StringsOf(ListExpr(es[1..])) by {
        forall x | x in StringsOf(ListExpr(es))
          ensures x in {es[0].v.s} + StringsOf(ListExpr(es[1..]))
        {
          var i :| 0 <= i < |es| && es[i].Const? && es[i].v.Str? && es[i].v.s == x;
          if i > 0 { assert es[1..][i - 1] == es[i]; }
        }
        forall x | x in StringsOf(ListExpr(es[1..]))
          ensures x in StringsOf(ListExpr(es))
        {
          var i :| 0 <= i < |es[1..]| && es[1..][i].Const? && es[1..][i].v.Str? && es[1..][i].v.s == x;
          assert es[i + 1] == es[1..][i];
        }
      }
    }
  }

  lemma InBuildCorrect(d: Dialect, w: World, row: Row, args: seq<Expr>, ctx: Context)
    requires BuildIn(args, ctx).Ok? && |args| == 2 && Faithful(ctx, d, w, row, Call(InFn, None, args))
    ensures Meaning(ctx.schema, d, w, row, BuildIn(args, ctx).value) == CelIn(ctx, row, args[0], args[1])
  {
    if args[0].Ident? && args[1].ListExpr? {
      var es := args[1].elements;
      ValuesCorrect(es, ctx);
      SameMembers(row.Scalar(args[0].name), row.List(Target(ctx.schema, "tag")), BuildValues(es, ctx).value,
                  ConstLiterals(es, ctx));
    } else {
      ValueCorrect(args[0], ctx);
    }
  }

  lemma SetBuildCorrect(d: Dialect, w: World, row: Row, fn: Fn, args: seq<Expr>, ctx: Context)
    requires fn.SetsContains? || fn.SetsIntersects? || fn.SetsEquivalent?
    requires BuildSet(fn, args, ctx).Ok? && Faithful(ctx, d, w, row, Call(fn, None, args))
    ensures Meaning(ctx.schema, d, w, row, BuildSet(fn, args, ctx).value) == CelSetMeaning(row, fn, args)
  {
    var f, values := args[0].name, StringLiterals(args[1].elements).value;
    StringLiteralsCorrect(args[1].elements);
    SetConditionCorrectIff(ctx.schema, d, w, row, fn, f, values);
  }

  /** Building the tree keeps the value of every faithful expression on every row. */
  lemma {:induction false} BuildCorrect(ctx: Context, d: Dialect, w: World, row: Row, e: Expr)
    requires BuildCondition(e, ctx).Ok? && Faithful(ctx, d, w, row, e)
    ensures Meaning(ctx.schema, d, w, row, BuildCondition(e, ctx).value) == CelMeaning(ctx, w.regex, row, e)
    decreases e
  {
    match e
    case Const(_) =>
    case Ident(_) =>
    case Comprehension(kind, range, pred) => ComprehensionAgreesIff(kind, row.List(FieldOf(range)), pred);
    case Call(fn, target, args) =>
      match fn {
        case AndFn =>
          BuildCorrect(ctx, d, w, row, args[0]);
          BuildCorrect(ctx, d, w, row, args[1]);
        case OrFn =>
          BuildCorrect(ctx, d, w, row, args[0]);
          BuildCorrect(ctx, d, w, row, args[1]);
        case NotFn => BuildCorrect(ctx, d, w, row, args[0]);
        case CompareFn(op) => ComparisonBuildCorrect(d, w, row, op, args, ctx);
        case InFn => InBuildCorrect(d, w, row, args, ctx);
        case SetsContains => SetBuildCorrect(d, w, row, fn, args, ctx);
        case SetsIntersects => SetBuildCorrect(d, w, row, fn, args, ctx);
        case SetsEquivalent => SetBuildCorrect(d, w, row, fn, args, ctx);
        case TextFn(mode) =>
          assert TextOperand(target, args, ctx).Ok?;
          FoldHarmlessIff(w, mode, row.Scalar(FieldOf(target.value)), TextOf(args));
        case MatchesFn => assert TextOperand(target, args, ctx).Ok?;
      }
  }
}
