/** What the rendered statements mean: folding and dialect encodings preserve the condition's Kleene value wherever the
    placeholders read the arguments they were written for. */
module FilterMeaning {
  import opened Wrappers
  import opened Like
  import opened FilterIr
  import opened FilterSql
  import opened FilterRender
  import opened FilterFolding
  import opened FilterShape

  // Conditions a caller can check on the tree.

  predicate IntTyped(typ: FieldType) { typ == IntType || typ == TimestampType }

  predicate ExactLiteral(op: CompareOp, e: ValueExpr) {
    e.Literal? && e.value.Real? ==> TruncationExact(op, e.value.r)
  }

  /** Float literals compared with integers survive truncation. */
  predicate ExactLiterals(schema: Schema, c: Condition) {
    match c
    case Logical(_, l, r) => ExactLiterals(schema, l) && ExactLiterals(schema, r)
    case Not(e) => ExactLiterals(schema, e)
    case Comparison(_, op, rhs) => ExactLiteral(op, rhs)
    case In(_, values) => forall v :: v in values ==> ExactLiteral(Eq, v)
    case _ => true
  }

  /** Integer and timestamp columns hold integers or NULL. */
  ghost predicate RowTyped(schema: Schema, row: Row) {
    forall f :: f in schema && schema[f].kind == Scalar && IntTyped(schema[f].typ)
      ==> row.Scalar(f).Int? || row.Scalar(f).Null?
  }

  // Leaves.

  lemma NumberArg(op: CompareOp, v: Value, lit: Value)
    requires v.Int? || v.Null?
    requires lit.Real? ==> TruncationExact(op, lit.r)
    requires ToInt64(lit).Ok?
    ensures Compare(op, v, Int(ToInt64(lit).value)) == Compare(op, v, lit)
  {
    if lit.Real? && v.Int? {
      IntegersAgree(op, v.i, lit.r);
    }
  }

  lemma OneArgReads(d: Dialect, base: nat, v: Value, full: seq<Value>, pos: nat)
    requires Bound(d, base, [v], full, pos)
    ensures Read(Mark(d, base + 1), full, pos) == v
  {
    ReadMark(d, base, [v], full, pos, 0);
  }

  /** The dialects' date parts minus their offsets are CEL's accessor values. */
  lemma AccessorsAgree(d: Dialect, accessor: Accessor, c: Clock)
    ensures RawPart(d, accessor, c) - AccessorOffset(d, accessor) == CelPart(accessor, c)
  {
  }

  lemma OneArgCorrect(d: Dialect, w: World, row: Row, base: nat, t: Term, op: CompareOp, arg: Value, lit: Value,
                      full: seq<Value>, pos: nat)
    requires Bound(d, base, OneArg(d, base, t, op, arg).args, full, pos) && !t.RowCount?
    requires Compare(op, TermValue(d, row, t, [], 0), arg) == Compare(op, TermValue(d, row, t, [], 0), lit)
    ensures Eval(d, w, row, OneArg(d, base, t, op, arg).res.sql, full, pos)
         == Compare(op, TermValue(d, row, t, [], 0), lit)
  {
    OneArgReads(d, base, arg, full, pos);
  }

  lemma ScalarComparisonCorrect(schema: Schema, d: Dialect, w: World, row: Row, base: nat, f: string, op: CompareOp,
                                rhs: ValueExpr, full: seq<Value>, pos: nat)
    requires f in schema && schema[f].kind == Scalar && RowTyped(schema, row) && ExactLiteral(op, rhs)
    requires RenderScalarComparison(d, base, f, schema[f].typ, op, rhs).Ok?
    requires Bound(d, base, RenderScalarComparison(d, base, f, schema[f].typ, op, rhs).value.args, full, pos)
    ensures Eval(d, w, row, RenderScalarComparison(d, base, f, schema[f].typ, op, rhs).value.res.sql, full, pos)
         == FieldComparison(Scalar, d, row, f, op, rhs.value)
  {
    var lit := rhs.value;
    if lit != Null {
      var arg := ScalarArg(schema[f].typ, lit).value;
      if IntTyped(schema[f].typ) {
        NumberArg(op, row.Scalar(f), lit);
      }
      OneArgCorrect(d, w, row, base, Column(f), op, arg, lit, full, pos);
    }
  }

  lemma FlagComparisonCorrect(schema: Schema, d: Dialect, w: World, row: Row, base: nat, f: string, op: CompareOp,
                              rhs: ValueExpr, full: seq<Value>, pos: nat)
    requires f in schema && schema[f].kind == JsonBool
    requires RenderFlagComparison(d, base, f, op, rhs).Ok?
    requires Bound(d, base, RenderFlagComparison(d, base, f, op, rhs).value.args, full, pos)
    ensures Eval(d, w, row, RenderFlagComparison(d, base, f, op, rhs).value.res.sql, full, pos)
         == FieldComparison(JsonBool, d, row, f, op, rhs.value)
  {
    if d == Postgres {
      OneArgReads(d, base, rhs.value, full, pos);
    }
  }

  lemma SizeComparisonCorrect(schema: Schema, d: Dialect, w: World, row: Row, base: nat, arg: ValueExpr, op: CompareOp,
                              rhs: ValueExpr, full: seq<Value>, pos: nat)
    requires ExactLiteral(op, rhs)
    requires RenderSizeComparison(schema, d, base, arg, op, rhs).Ok?
    requires Bound(d, base, RenderSizeComparison(schema, d, base, arg, op, rhs).value.args, full, pos)
    ensures Eval(d, w, row, RenderSizeComparison(schema, d, base, arg, op, rhs).value.res.sql, full, pos)
         == ComparisonMeaning(schema, d, row, Size(arg), op, rhs.value)
  {
    var target := ResolveAlias(schema, arg.name).value;
    var t := if target.field.kind == JsonList then ListLength(target.name) else TextLength(target.name);
    NumberArg(op, TermValue(d, row, t, [], 0), rhs.value);
    OneArgCorrect(d, w, row, base, t, op, Int(ToInt64(rhs.value).value), rhs.value, full, pos);
  }

  lemma AccessorComparisonCorrect(schema: Schema, d: Dialect, w: World, row: Row, base: nat, f: string,
                                  accessor: Accessor, op: CompareOp, rhs: ValueExpr, full: seq<Value>, pos: nat)
    requires ExactLiteral(op, rhs)
    requires RenderAccessorComparison(schema, d, base, f, accessor, op, rhs).Ok?
    requires Bound(d, base, RenderAccessorComparison(schema, d, base, f, accessor, op, rhs).value.args, full, pos)
    ensures Eval(d, w, row, RenderAccessorComparison(schema, d, base, f, accessor, op, rhs).value.res.sql, full, pos)
         == ComparisonMeaning(schema, d, row, FieldAccessor(f, accessor), op, rhs.value)
  {
    var t := DatePart(f, accessor, AccessorOffset(d, accessor));
    if row.Clock(f).Some? { AccessorsAgree(d, accessor, row.Clock(f).value); }
    assert TermValue(d, row, t, [], 0) == AccessorValue(accessor, row.Clock(f));
    NumberArg(op, TermValue(d, row, t, [], 0), rhs.value);
    OneArgCorrect(d, w, row, base, t, op, Int(ToInt64(rhs.value).value), rhs.value, full, pos);
  }

  lemma PathComparisonCorrect(d: Dialect, w: World, row: Row, f: string, op: CompareOp, rhs: ValueExpr,
                              full: seq<Value>, pos: nat)
    requires RenderPathComparison(d, f, op, rhs).Ok?
    ensures Eval(d, w, row, RenderPathComparison(d, f, op, rhs).value.res.sql, full, pos)
         == FieldComparison(JsonExists, d, row, f, op, rhs.value)
  {
  }

  lemma FieldComparisonCorrect(schema: Schema, d: Dialect, w: World, row: Row, base: nat, f: string, op: CompareOp,
                               rhs: ValueExpr, full: seq<Value>, pos: nat)
    requires ExactLiteral(op, rhs) && RowTyped(schema, row)
    requires RenderComparison(schema, d, base, FieldRef(f), op, rhs).Ok?
    requires Bound(d, base, RenderComparison(schema, d, base, FieldRef(f), op, rhs).value.args, full, pos)
    ensures f in schema
    ensures Eval(d, w, row, RenderComparison(schema, d, base, FieldRef(f), op, rhs).value.res.sql, full, pos)
         == FieldComparison(schema[f].kind, d, row, f, op, rhs.value)
  {
    var p := RenderComparison(schema, d, base, FieldRef(f), op, rhs);
    match schema[f].kind {
      case BoolColumn =>
        assert p == Ok(OneArg(d, base, Column(f), op, BoolArg(d, rhs.value.b)));
        OneArgCorrect(d, w, row, base, Column(f), op, BoolArg(d, rhs.value.b), rhs.value, full, pos);
      case JsonBool =>
        assert p == RenderFlagComparison(d, base, f, op, rhs);
        FlagComparisonCorrect(schema, d, w, row, base, f, op, rhs, full, pos);
      case JsonExists =>
        assert p == RenderPathComparison(d, f, op, rhs);
        PathComparisonCorrect(d, w, row, f, op, rhs, full, pos);
      case Scalar =>
        assert p == RenderScalarComparison(d, base, f, schema[f].typ, op, rhs);
        ScalarComparisonCorrect(schema, d, w, row, base, f, op, rhs, full, pos);
    }
  }

  lemma ComparisonCorrect(schema: Schema, d: Dialect, w: World, row: Row, base: nat, lhs: ValueExpr, op: CompareOp,
                          rhs: ValueExpr, full: seq<Value>, pos: nat)
    requires ExactLiteral(op, rhs) && RowTyped(schema, row)
    requires RenderComparison(schema, d, base, lhs, op, rhs).Ok?
    requires Bound(d, base, RenderComparison(schema, d, base, lhs, op, rhs).value.args, full, pos)
    ensures Eval(d, w, row, RenderComparison(schema, d, base, lhs, op, rhs).value.res.sql, full, pos)
         == ComparisonMeaning(schema, d, row, lhs, op, rhs.value)
  {
    match lhs
    case FieldRef(f) => FieldComparisonCorrect(schema, d, w, row, base, f, op, rhs, full, pos);
    case Size(arg) => SizeComparisonCorrect(schema, d, w, row, base, arg, op, rhs, full, pos);
    case FieldAccessor(f, accessor) =>
      AccessorComparisonCorrect(schema, d, w, row, base, f, accessor, op, rhs, full, pos);
  }

  lemma InElementCorrect(typ: FieldType, v: Value, e: ValueExpr)
    requires e.Literal? && (typ == StringType || typ == IntType) && ScalarArg(typ, e.value).Ok? && ExactLiteral(Eq, e)
    requires IntTyped(typ) ==> v.Int? || v.Null?
    ensures Compare(Eq, v, ScalarArg(typ, e.value).value) == Compare(Eq, v, e.value)
  {
  }

  lemma {:induction false} InListCorrect(d: Dialect, typ: FieldType, base: nat, v: Value, values: seq<ValueExpr>,
                                         own: seq<Value>, full: seq<Value>, pos: nat)
    requires InArgs(typ, values) == Ok(own) && Bound(d, base, own, full, pos)
    requires IntTyped(typ) ==> v.Int? || v.Null?
    requires forall e :: e in values ==> ExactLiteral(Eq, e)
    ensures MemberOfHoles(v, Marks(d, base, |own|), full, pos) == MemberOf(v, LiteralValues(values))
    decreases |values|
  {
    if values != [] {
      var rest := InArgs(typ, values[1..]).value;
      assert own == [own[0]] + rest;
      BoundSplit(d, base, [own[0]], rest, full, pos);
      OneArgReads(d, base, own[0], full, pos);
      assert values[0] in values;
      InElementCorrect(typ, v, values[0]);
      InListCorrect(d, typ, base + 1, v, values[1..], rest, full, pos + 1);
      assert Marks(d, base, |own|) == [Mark(d, base + 1)] + Marks(d, base + 1, |rest|);
      assert LiteralValues(values) == [values[0].value] + LiteralValues(values[1..]);
    }
  }

  lemma TagTestCorrect(d: Dialect, w: World, row: Row, base: nat, list: string, v: string, full: seq<Value>, pos: nat)
    requires Bound(d, base, [Str(v)], full, pos)
    ensures Eval(d, w, row, TagTest(d, base, list, v), full, pos) == Tri2(v in row.List(list))
    ensures HoleCount(TagTest(d, base, list, v)) == 1
    ensures !HasBlank(TagTest(d, base, list, v))
  {
    ComprehensionCorrect(d, w, row, Exists, list, Equals(v), base, full, pos);
    assert Comprehends(Exists, row.List(list), Equals(v)) <==> v in row.List(list) by {
      if v in row.List(list) { assert TagMatches(Equals(v), v); }
    }
  }

  /** A disjunction is its first alternative or the disjunction of the others. */
  lemma AnyOfCorrect(d: Dialect, w: World, row: Row, test: Sql, tests: seq<Sql>, full: seq<Value>, pos: nat)
    ensures Eval(d, w, row, AnyOf([test] + tests), full, pos)
         == Or3(Eval(d, w, row, test, full, pos), Eval(d, w, row, AnyOf(tests), full, pos + HoleCount(test)))
  {
    assert ([test] + tests)[1..] == tests;
    if tests == [] {
      assert AnyOf([test] + tests) == test && AnyOf(tests) == Never;
    } else {
      assert AnyOf([test] + tests) == Or(test, AnyOf(tests));
    }
  }

  /** The disjunction of the tests has the value of the membership. */
  ghost predicate TestsAgree(d: Dialect, w: World, row: Row, tests: seq<Sql>, list: string, values: seq<ValueExpr>,
                             full: seq<Value>, pos: nat) {
    Eval(d, w, row, AnyOf(tests), full, pos) == AnyTag(row.List(list), values)
  }

  lemma TestsExtend(d: Dialect, w: World, row: Row, test: Sql, tests: seq<Sql>, list: string, values: seq<ValueExpr>,
                    full: seq<Value>, pos: nat)
    requires values != [] && values[0].Literal? && values[0].value.Str?
    requires Eval(d, w, row, test, full, pos) == Tri2(values[0].value.s in row.List(list))
    requires TestsAgree(d, w, row, tests, list, values[1..], full, pos + HoleCount(test))
    ensures TestsAgree(d, w, row, [test] + tests, list, values, full, pos)
  {
    AnyOfCorrect(d, w, row, test, tests, full, pos);
    assert AnyTag(row.List(list), values)
         == Or3(Tri2(values[0].value.s in row.List(list)), AnyTag(row.List(list), values[1..]));
  }

  lemma {:induction false} TagListCorrect(d: Dialect, w: World, row: Row, base: nat, list: string,
                                          values: seq<ValueExpr>, full: seq<Value>, pos: nat)
    requires TagAlternatives(d, base, list, values).Ok?
    requires Bound(d, base, TagAlternatives(d, base, list, values).value.1, full, pos)
    ensures TestsAgree(d, w, row, TagAlternatives(d, base, list, values).value.0, list, values, full, pos)
    decreases |values|
  {
    if values != [] {
      var rest := TagAlternatives(d, base + 1, list, values[1..]).value;
      var v := values[0].value;
      var test := TagTest(d, base, list, v.s);
      BoundSplit(d, base, [v], rest.1, full, pos);
      TagTestCorrect(d, w, row, base, list, v.s, full, pos);
      TagListCorrect(d, w, row, base + 1, list, values[1..], full, pos + 1);
      TestsExtend(d, w, row, test, rest.0, list, values, full, pos);
    }
  }

  lemma InCorrect(schema: Schema, d: Dialect, w: World, row: Row, base: nat, member: ValueExpr, values: seq<ValueExpr>,
                  full: seq<Value>, pos: nat)
    requires RowTyped(schema, row) && forall v :: v in values ==> ExactLiteral(Eq, v)
    requires RenderIn(schema, d, base, member, values).Ok?
    requires Bound(d, base, RenderIn(schema, d, base, member, values).value.args, full, pos)
    ensures Eval(d, w, row, RenderIn(schema, d, base, member, values).value.res.sql, full, pos)
         == InMeaning(schema, row, member, values)
  {
    if member.name == "tag" {
      TagListCorrect(d, w, row, base, ResolveAlias(schema, "tag").value.name, values, full, pos);
    } else {
      var typ := schema[member.name].typ;
      InListCorrect(d, typ, base, row.Scalar(member.name), values, InArgs(typ, values).value, full, pos);
    }
  }

  /** A rendered leaf means the condition on every row. */
  lemma LeafCorrect(schema: Schema, d: Dialect, w: World, row: Row, base: nat, c: Condition, full: seq<Value>, pos: nat)
    requires KeepsMeta(w.fold, BACKSLASH) && IsLeaf(c) && ExactLiterals(schema, c) && RowTyped(schema, row)
    requires RenderLeaf(schema, d, base, c).Ok?
    requires Bound(d, base, RenderLeaf(schema, d, base, c).value.args, full, pos)
    ensures Eval(d, w, row, RenderLeaf(schema, d, base, c).value.res.sql, full, pos)
         == LeafMeaning(schema, d, w, row, c)
  {
    match c
    case Comparison(lhs, op, rhs) =>
      ComparisonCorrect(schema, d, w, row, base, lhs, op, rhs, full, pos);
    case FieldPredicate(f) => PredicateCorrect(schema, d, w, row, f, full, pos);
    case In(member, values) => InCorrect(schema, d, w, row, base, member, values, full, pos);
    case ElementIn(element, f) => TagTestCorrect(d, w, row, base, f, element.value.s, full, pos);
    case TextMatch(f, mode, value) =>
      LikeCorrect(d, w, row, f, mode, value, Mark(d, base + 1), full, pos) by {
        OneArgReads(d, base, Str(Pattern(mode, value, BACKSLASH)), full, pos);
      }
    case Regex(f, pattern) =>
      OneArgReads(d, base, Str(pattern), full, pos);
    case ListComprehension(kind, f, pred) =>
      ComprehensionCorrect(d, w, row, kind, f, pred, base, full, pos);
    case Constant(_) =>
  }

  lemma PredicateCorrect(schema: Schema, d: Dialect, w: World, row: Row, f: string, full: seq<Value>, pos: nat)
    requires RenderPredicate(schema, d, f).Ok?
    ensures f in schema
    ensures Eval(d, w, row, RenderPredicate(schema, d, f).value.res.sql, full, pos)
         == PredicateMeaning(schema[f].kind, row, f)
  {
  }

  lemma LikeCorrect(d: Dialect, w: World, row: Row, f: string, mode: TextMatchMode, value: string, h: Hole,
                    full: seq<Value>, pos: nat)
    requires KeepsMeta(w.fold, BACKSLASH) && Read(h, full, pos) == Str(Pattern(mode, value, BACKSLASH))
    ensures Eval(d, w, row, FoldedLike(Column(f), h), full, pos) == FoldedMatch(w, mode, row.Scalar(f), value)
  {
    if row.Scalar(f).Str? {
      FoldedLikeIsTextMatch(w.fold, mode, row.Scalar(f).s, value, BACKSLASH);
    }
  }

  // Whole trees.

  /** A tree that folds to a constant has that constant's value on every row. */
  lemma {:induction false} FoldedMeaning(schema: Schema, d: Dialect, w: World, row: Row, c: Condition)
    ensures match Fold(c) case Some(b) => Meaning(schema, d, w, row, c) == Tri2(b) case None => true
    decreases c
  {
    match c
    case Logical(_, l, r) =>
      FoldedMeaning(schema, d, w, row, l);
      FoldedMeaning(schema, d, w, row, r);
    case Not(e) => FoldedMeaning(schema, d, w, row, e);
    case _ =>
  }

  /** All placeholders were written for arguments in a range. */
  predicate LabelsWithin(hs: seq<Hole>, lo: nat, hi: nat) { forall j :: 0 <= j < |hs| ==> lo < hs[j].n <= hi }

  lemma RenderedWithin(schema: Schema, d: Dialect, base: nat, c: Condition, p: Rendered)
    requires Rendering(schema, d, base, c) == Ok(p)
    ensures LabelsWithin(Holes(p.res.sql), base, base + |p.args|)
  {
    RenderingShape(schema, d, base, c);
    LabelsIncrease(schema, d, base, c);
  }

  lemma ReadsOwnLeft(base: nat, a: seq<Value>, b: seq<Value>, hs: seq<Hole>, full: seq<Value>, pos: nat)
    requires ReadsOwn(base, a + b, hs, full, pos) && LabelsWithin(hs, base, base + |a|)
    ensures ReadsOwn(base, a, hs, full, pos)
  {
    forall j: nat | j < |hs|
      ensures OwnRead(base, a, hs[j], full, pos + j)
    {
      assert OwnRead(base, a + b, hs[j], full, pos + j);
    }
  }

  lemma ReadsOwnRight(base: nat, next: nat, a: seq<Value>, b: seq<Value>, hs: seq<Hole>, full: seq<Value>, pos: nat)
    requires next == base + |a| && ReadsOwn(base, a + b, hs, full, pos) && LabelsWithin(hs, next, next + |b|)
    ensures ReadsOwn(next, b, hs, full, pos)
  {
    forall j: nat | j < |hs|
      ensures OwnRead(next, b, hs[j], full, pos + j)
    {
      assert OwnRead(base, a + b, hs[j], full, pos + j);
    }
  }

  lemma ReadsOwnSplit(base: nat, own: seq<Value>, hl: seq<Hole>, hr: seq<Hole>, full: seq<Value>, pos: nat)
    requires ReadsOwn(base, own, hl + hr, full, pos)
    ensures ReadsOwn(base, own, hl, full, pos) && ReadsOwn(base, own, hr, full, pos + |hl|)
  {
    var hs, at := hl + hr, pos + |hl|;
    forall j: nat | j < |hl|
      ensures OwnRead(base, own, hl[j], full, pos + j)
    {
      assert OwnRead(base, own, hs[j], full, pos + j);
    }
    forall j: nat | j < |hr|
      ensures OwnRead(base, own, hr[j], full, at + j)
    {
      var k := |hl| + j;
      assert OwnRead(base, own, hs[k], full, pos + k);
    }
  }

  lemma ReadsOwnBound(d: Dialect, base: nat, own: seq<Value>, full: seq<Value>, pos: nat)
    requires ReadsOwn(base, own, Marks(d, base, |own|), full, pos)
    ensures Bound(d, base, own, full, pos)
  {
    var hs := Marks(d, base, |own|);
    forall k: nat | k < |own|
      ensures ReadsAt(d, base, own, full, pos, k)
    {
      assert OwnRead(base, own, hs[k], full, pos + k);
    }
  }

  /** A placement of the SQL text has the condition's Kleene value. */
  ghost predicate Agrees(schema: Schema, d: Dialect, w: World, row: Row, c: Condition, sql: Sql, full: seq<Value>,
                         pos: nat) {
    Eval(d, w, row, sql, full, pos) == Meaning(schema, d, w, row, c)
  }

  /** `p` renders `c` after `base` arguments, and at `pos` in a text whose arguments are `full` its placeholders read
      the arguments they were written for; the row holds values of the schema's types. */
  ghost predicate Ready(schema: Schema, d: Dialect, w: World, row: Row, base: nat, c: Condition, p: Rendered,
                        full: seq<Value>, pos: nat) {
    && KeepsMeta(w.fold, BACKSLASH) && ExactLiterals(schema, c) && RowTyped(schema, row)
    && Rendering(schema, d, base, c) == Ok(p)
    && ReadsOwn(base, p.args, Holes(p.res.sql), full, pos)
  }

  /** The rendered text has the Kleene value of the condition tree on every row, for every dialect. */
  lemma {:induction false} RenderingCorrect(schema: Schema, d: Dialect, w: World, row: Row, base: nat, c: Condition,
                                            p: Rendered, full: seq<Value>, pos: nat)
    requires Ready(schema, d, w, row, base, c, p, full, pos)
    ensures Agrees(schema, d, w, row, c, p.res.sql, full, pos)
    decreases c
  {
    if Fold(c).Some? {
      FoldedCorrect(schema, d, w, row, base, c, p, full, pos);
    } else if c.Logical? {
      var l, r, next := Operands(schema, d, base, c, p);
      var at := pos + HoleCount(l.res.sql);
      TextOfOperator(schema, d, base, next, c, p, l, r);
      if Fold(c.left).Some? {
        RightOperand(schema, d, w, row, base, next, c, p, l, r, full, pos);
        RenderingCorrect(schema, d, w, row, next, c.right, r, full, pos);
        RightAgrees(schema, d, w, row, c, p.res.sql, full, pos);
      } else if Fold(c.right).Some? {
        LeftOperand(schema, d, w, row, base, next, c, p, l, r, full, pos);
        RenderingCorrect(schema, d, w, row, base, c.left, l, full, pos);
        LeftAgrees(schema, d, w, row, c, p.res.sql, full, pos);
      } else {
        BothOperands(schema, d, w, row, base, next, c, p, l, r, full, pos, at);
        RenderingCorrect(schema, d, w, row, base, c.left, l, full, pos);
        RenderingCorrect(schema, d, w, row, next, c.right, r, full, at);
        OperatorCorrect(schema, d, w, row, c, l.res.sql, r.res.sql, full, pos, at);
      }
    } else if c.Not? {
      var x := Operand(schema, d, w, row, base, c, p, full, pos);
      RenderingCorrect(schema, d, w, row, base, c.expr, x, full, pos);
      NotCorrect(schema, d, w, row, c, x.res.sql, full, pos);
    } else {
      LeafReady(schema, d, w, row, base, c, p, full, pos);
    }
  }

  lemma FoldedCorrect(schema: Schema, d: Dialect, w: World, row: Row, base: nat, c: Condition, p: Rendered,
                      full: seq<Value>, pos: nat)
    requires Rendering(schema, d, base, c) == Ok(p) && Fold(c).Some?
    ensures Agrees(schema, d, w, row, c, p.res.sql, full, pos)
  {
    RenderingShape(schema, d, base, c);
    FoldedMeaning(schema, d, w, row, c);
  }

  lemma LeafReady(schema: Schema, d: Dialect, w: World, row: Row, base: nat, c: Condition, p: Rendered,
                  full: seq<Value>, pos: nat)
    requires IsLeaf(c) && !c.Constant? && Ready(schema, d, w, row, base, c, p, full, pos)
    ensures Agrees(schema, d, w, row, c, p.res.sql, full, pos)
  {
    LeafShape(schema, d, base, c);
    ReadsOwnBound(d, base, p.args, full, pos);
    LeafCorrect(schema, d, w, row, base, c, full, pos);
  }

  /** What the operands of an operator render to, the right one after `next` arguments. */
  predicate OperandsOf(schema: Schema, d: Dialect, base: nat, next: nat, c: Condition, p: Rendered, l: Rendered,
                       r: Rendered)
    requires c.Logical?
  {
    && next == base + |l.args|
    && Rendering(schema, d, base, c.left) == Ok(l) && Rendering(schema, d, next, c.right) == Ok(r)
    && p == Rendered(Combine(c.op, l.res, r.res), l.args + r.args)
    && FoldsTo(l.res, Fold(c.left)) && FoldsTo(r.res, Fold(c.right))
    && LabelsWithin(Holes(l.res.sql), base, next) && LabelsWithin(Holes(r.res.sql), next, next + |r.args|)
  }

  lemma Operands(schema: Schema, d: Dialect, base: nat, c: Condition, p: Rendered)
    returns (l: Rendered, r: Rendered, next: nat)
    requires c.Logical? && Rendering(schema, d, base, c) == Ok(p)
    ensures OperandsOf(schema, d, base, next, c, p, l, r)
  {
    l := Rendering(schema, d, base, c.left).value;
    next := base + |l.args|;
    r := Rendering(schema, d, next, c.right).value;
    RenderingShape(schema, d, base, c.left);
    RenderingShape(schema, d, next, c.right);
    RenderedWithin(schema, d, base, c.left, l);
    RenderedWithin(schema, d, next, c.right, r);
  }

  /** What an operator's text is, when it does not fold itself. */
  lemma CombinedText(op: LogicalOp, l: RenderResult, r: RenderResult, fl: Option<bool>, fr: Option<bool>)
    requires FoldsTo(l, fl) && FoldsTo(r, fr) && Combined(op, fl, fr).None?
    ensures Combine(op, l, r).sql == if fl.Some? then r.sql else if fr.Some? then l.sql else Joining(op, l.sql, r.sql)
  {
    match op
    case LogicalAnd => AndFolds(l, r, fl, fr);
    case LogicalOr => OrFolds(l, r, fl, fr);
  }

  lemma BothRead(base: nat, next: nat, la: seq<Value>, ra: seq<Value>, hl: seq<Hole>, hr: seq<Hole>, full: seq<Value>,
                 pos: nat, at: nat)
    requires next == base + |la| && at == pos + |hl| && ReadsOwn(base, la + ra, hl + hr, full, pos)
    requires LabelsWithin(hl, base, next) && LabelsWithin(hr, next, next + |ra|)
    ensures ReadsOwn(base, la, hl, full, pos) && ReadsOwn(next, ra, hr, full, at)
  {
    ReadsOwnSplit(base, la + ra, hl, hr, full, pos);
    ReadsOwnLeft(base, la, ra, hl, full, pos);
    ReadsOwnRight(base, next, la, ra, hr, full, at);
  }

  lemma TextOfOperator(schema: Schema, d: Dialect, base: nat, next: nat, c: Condition, p: Rendered, l: Rendered,
                       r: Rendered)
    requires c.Logical? && OperandsOf(schema, d, base, next, c, p, l, r) && Fold(c).None?
    ensures p.res.sql == if Fold(c.left).Some? then r.res.sql else if Fold(c.right).Some? then l.res.sql
                         else Joining(c.op, l.res.sql, r.res.sql)
  {
    CombinedText(c.op, l.res, r.res, Fold(c.left), Fold(c.right));
  }

  /** When the left operand folds away, the text is the right one's. */
  lemma RightOperand(schema: Schema, d: Dialect, w: World, row: Row, base: nat, next: nat, c: Condition, p: Rendered,
                     l: Rendered, r: Rendered, full: seq<Value>, pos: nat)
    requires c.Logical? && OperandsOf(schema, d, base, next, c, p, l, r) && p.res.sql == r.res.sql
    requires Ready(schema, d, w, row, base, c, p, full, pos)
    ensures Ready(schema, d, w, row, next, c.right, r, full, pos)
  {
    ReadsOwnRight(base, next, l.args, r.args, Holes(r.res.sql), full, pos);
  }

  lemma LeftOperand(schema: Schema, d: Dialect, w: World, row: Row, base: nat, next: nat, c: Condition, p: Rendered,
                    l: Rendered, r: Rendered, full: seq<Value>, pos: nat)
    requires c.Logical? && OperandsOf(schema, d, base, next, c, p, l, r) && p.res.sql == l.res.sql
    requires Ready(schema, d, w, row, base, c, p, full, pos)
    ensures Ready(schema, d, w, row, base, c.left, l, full, pos)
  {
    ReadsOwnLeft(base, l.args, r.args, Holes(l.res.sql), full, pos);
  }

  /** So is the meaning. */
  lemma RightAgrees(schema: Schema, d: Dialect, w: World, row: Row, c: Condition, sql: Sql, full: seq<Value>, pos: nat)
    requires c.Logical? && Fold(c).None? && Fold(c.left).Some? && Agrees(schema, d, w, row, c.right, sql, full, pos)
    ensures Agrees(schema, d, w, row, c, sql, full, pos)
  {
    FoldedMeaning(schema, d, w, row, c.left);
  }

  lemma LeftAgrees(schema: Schema, d: Dialect, w: World, row: Row, c: Condition, sql: Sql, full: seq<Value>, pos: nat)
    requires c.Logical? && Fold(c).None? && Fold(c.right).Some? && Agrees(schema, d, w, row, c.left, sql, full, pos)
    ensures Agrees(schema, d, w, row, c, sql, full, pos)
  {
    FoldedMeaning(schema, d, w, row, c.right);
  }

  function Joining(op: LogicalOp, l: Sql, r: Sql): Sql {
    match op case LogicalAnd => And(l, r) case LogicalOr => Or(l, r)
  }

  lemma BothOperands(schema: Schema, d: Dialect, w: World, row: Row, base: nat, next: nat, c: Condition, p: Rendered,
                     l: Rendered, r: Rendered, full: seq<Value>, pos: nat, at: nat)
    requires c.Logical? && OperandsOf(schema, d, base, next, c, p, l, r) && at == pos + HoleCount(l.res.sql)
    requires Ready(schema, d, w, row, base, c, p, full, pos) && p.res.sql == Joining(c.op, l.res.sql, r.res.sql)
    ensures Ready(schema, d, w, row, base, c.left, l, full, pos) && Ready(schema, d, w, row, next, c.right, r, full, at)
  {
    BothRead(base, next, l.args, r.args, Holes(l.res.sql), Holes(r.res.sql), full, pos, at);
  }

  lemma Operand(schema: Schema, d: Dialect, w: World, row: Row, base: nat, c: Condition, p: Rendered,
                full: seq<Value>, pos: nat)
    returns (x: Rendered)
    requires c.Not? && Fold(c).None? && Ready(schema, d, w, row, base, c, p, full, pos)
    ensures Ready(schema, d, w, row, base, c.expr, x, full, pos) && p.res.sql == Negate(x.res.sql)
  {
    x := Rendering(schema, d, base, c.expr).value;
    RenderingShape(schema, d, base, c.expr);
  }

  function Kleene(op: LogicalOp, a: Tri, b: Tri): Tri {
    match op case LogicalAnd => And3(a, b) case LogicalOr => Or3(a, b)
  }

  lemma OperatorEvaluates(d: Dialect, w: World, row: Row, op: LogicalOp, l: Sql, r: Sql, full: seq<Value>, pos: nat,
                          at: nat)
    requires at == pos + HoleCount(l)
    ensures Eval(d, w, row, Joining(op, l, r), full, pos)
         == Kleene(op, Eval(d, w, row, l, full, pos), Eval(d, w, row, r, full, at))
  {
    match op
    case LogicalAnd => assert Joining(op, l, r) == And(l, r);
    case LogicalOr => assert Joining(op, l, r) == Or(l, r);
  }

  lemma OperatorMeaning(schema: Schema, d: Dialect, w: World, row: Row, c: Condition)
    requires c.Logical?
    ensures Meaning(schema, d, w, row, c)
         == Kleene(c.op, Meaning(schema, d, w, row, c.left), Meaning(schema, d, w, row, c.right))
  {
  }

  lemma OperatorCorrect(schema: Schema, d: Dialect, w: World, row: Row, c: Condition, l: Sql, r: Sql,
                        full: seq<Value>, pos: nat, at: nat)
    requires c.Logical? && at == pos + HoleCount(l)
    requires Agrees(schema, d, w, row, c.left, l, full, pos) && Agrees(schema, d, w, row, c.right, r, full, at)
    ensures Agrees(schema, d, w, row, c, Joining(c.op, l, r), full, pos)
  {
    OperatorEvaluates(d, w, row, c.op, l, r, full, pos, at);
    OperatorMeaning(schema, d, w, row, c);
  }

  lemma NotCorrect(schema: Schema, d: Dialect, w: World, row: Row, c: Condition, x: Sql, full: seq<Value>, pos: nat)
    requires c.Not? && Agrees(schema, d, w, row, c.expr, x, full, pos)
    ensures Agrees(schema, d, w, row, c, Negate(x), full, pos)
  {
  }

  lemma StatementEvaluates(schema: Schema, d: Dialect, w: World, row: Row, offset: nat, c: Condition, s: Statement,
                           full: seq<Value>, pos: nat)
    requires KeepsMeta(w.fold, BACKSLASH) && ExactLiterals(schema, c) && RowTyped(schema, row)
    requires StatementFor(schema, d, offset, c) == Ok(s) && ReadsOwn(offset, s.args, Holes(s.sql), full, pos)
    ensures Eval(d, w, row, s.sql, full, pos) == Meaning(schema, d, w, row, c)
  {
    RenderingShape(schema, d, offset, c);
    RenderingCorrect(schema, d, w, row, offset, c, Rendering(schema, d, offset, c).value, full, pos);
  }

  /** The finished statement: the database takes it exactly under the condition on the tree, and then, its placeholders
      reading their own arguments, its answer on every row is the tree's Kleene value. */
  lemma StatementCorrect(schema: Schema, d: Dialect, w: World, row: Row, offset: nat, c: Condition, s: Statement,
                         full: seq<Value>, pos: nat)
    requires KeepsMeta(w.fold, BACKSLASH) && ExactLiterals(schema, c) && RowTyped(schema, row)
    requires StatementFor(schema, d, offset, c) == Ok(s)
    requires Acceptable(schema, d, c) ==> ReadsOwn(offset, s.args, Holes(s.sql), full, pos)
    ensures Answer(d, w, row, offset, |s.args|, s.sql, full, pos)
         == if Acceptable(schema, d, c) then Some(Meaning(schema, d, w, row, c)) else None
  {
    AcceptedIff(schema, d, offset, c);
    if Acceptable(schema, d, c) { StatementEvaluates(schema, d, w, row, offset, c, s, full, pos); }
  }

  /** The arguments stand among all arguments, after the first `offset`. */
  predicate Placed(offset: nat, own: seq<Value>, full: seq<Value>) {
    offset + |own| <= |full| && forall k :: 0 <= k < |own| ==> full[offset + k] == own[k]
  }

  /** A placeholder that is numbered, or stands where the argument it was written for stands. */
  predicate InItsPlace(h: Hole, p: nat) { h.Dollar? || h.n == p + 1 }

  lemma PlacedReads(offset: nat, own: seq<Value>, hs: seq<Hole>, full: seq<Value>, pos: nat)
    requires Placed(offset, own, full) && LabelsWithin(hs, offset, offset + |own|)
    requires forall j: nat :: j < |hs| ==> InItsPlace(hs[j], pos + j)
    ensures ReadsOwn(offset, own, hs, full, pos)
  {
    forall j: nat | j < |hs|
      ensures OwnRead(offset, own, hs[j], full, pos + j)
    {
      assert InItsPlace(hs[j], pos + j);
      var k := hs[j].n - offset - 1;
      assert full[offset + k] == own[k];
    }
  }

  /** Numbered placeholders always read their own arguments; anonymous ones do in a text with one placeholder per
      earlier argument, unless a dropped argument precedes a kept one. */
  lemma StatementReads(schema: Schema, d: Dialect, offset: nat, c: Condition, s: Statement, full: seq<Value>, pos: nat)
    requires StatementFor(schema, d, offset, c) == Ok(s) && Placed(offset, s.args, full)
    requires d == Postgres || (pos == offset && DropsLast(schema, d, offset, c))
    ensures ReadsOwn(offset, s.args, Holes(s.sql), full, pos)
  {
    StatementWithin(schema, d, offset, c, s);
    if d != Postgres { StatementBindsIff(schema, d, offset, c); }
    PlacedReads(offset, s.args, Holes(s.sql), full, pos);
  }

  /** MySQL and Postgres take no statement whose placeholders misbind. */
  lemma TakenStatementReads(schema: Schema, d: Dialect, offset: nat, c: Condition, s: Statement, full: seq<Value>,
                            pos: nat)
    requires StatementFor(schema, d, offset, c) == Ok(s) && Placed(offset, s.args, full)
    requires d != SQLite && Acceptable(schema, d, c) && (d == MySQL ==> pos == offset)
    ensures ReadsOwn(offset, s.args, Holes(s.sql), full, pos)
  {
    KeptAllDropsLast(schema, d, offset, c);
    StatementReads(schema, d, offset, c, s, full, pos);
  }

  lemma StatementWithin(schema: Schema, d: Dialect, offset: nat, c: Condition, s: Statement)
    requires StatementFor(schema, d, offset, c) == Ok(s)
    ensures LabelsWithin(Holes(s.sql), offset, offset + |s.args|)
    ensures d == Postgres ==> forall j :: 0 <= j < |Holes(s.sql)| ==> Holes(s.sql)[j].Dollar?
  {
    StatementShape(schema, d, offset, c);
    LabelsIncrease(schema, d, offset, c);
  }

  /** `(content.contains("a") || true) && creator_id == 3` folds to `creator_id = ?` but keeps both arguments: the
      only `?` was written for the second and stands at the first. SQLite takes it; the others refuse it. */
  lemma DroppedArgumentMisbinds(schema: Schema)
    requires "content" in schema && "creator_id" in schema
    requires schema["creator_id"].kind == Scalar && schema["creator_id"].typ == IntType
    ensures var c := Logical(LogicalAnd,
                             Logical(LogicalOr, TextMatch("content", Contains, "a"), Constant(true)),
                             Comparison(FieldRef("creator_id"), Eq, Literal(Int(3))));
      && StatementFor(schema, SQLite, 0, c)
         == Ok(Statement(Comparing(Column("creator_id"), Eq, Param(Question(2))), [Str("%a%"), Int(3)]))
      && StatementFor(schema, Postgres, 0, c)
         == Ok(Statement(Comparing(Column("creator_id"), Eq, Param(Dollar(2))), [Str("%a%"), Int(3)]))
      && !DropsLast(schema, SQLite, 0, c)
      && forall d :: Acceptable(schema, d, c) <==> d == SQLite
  {
    var drop := Logical(LogicalOr, TextMatch("content", Contains, "a"), Constant(true));
    var keep := Comparison(FieldRef("creator_id"), Eq, Literal(Int(3)));
    var c := Logical(LogicalAnd, drop, keep);
    forall d
      ensures Rendering(schema, d, 0, c)
           == Ok(Rendered(Plain(Comparing(Column("creator_id"), Eq, Param(Mark(d, 2)))), [Str("%a%"), Int(3)]))
    {
      DropRenders(schema, d, drop);
      KeepRenders(schema, d, keep);
      assert [Str("%a%")] + [Int(3)] == [Str("%a%"), Int(3)];
    }
    StatementBindsIff(schema, SQLite, 0, c);
    var sql := StatementFor(schema, SQLite, 0, c).value.sql;
    assert Holes(sql) == [Question(2)];
    assert Holes(sql)[0].n != 0 + 0 + 1;
    OnlySQLiteTakes(schema, c, drop, keep);
  }

  lemma OnlySQLiteTakes(schema: Schema, c: Condition, drop: Condition, keep: Condition)
    requires c == Logical(LogicalAnd, drop, keep)
    requires drop == Logical(LogicalOr, TextMatch("content", Contains, "a"), Constant(true))
    ensures forall d :: Acceptable(schema, d, c) <==> d == SQLite
  {
    forall d
      ensures !KeepsArgs(schema, d, c)
    {
      assert !KeepsArgs(schema, d, drop);
    }
  }

  lemma DropRenders(schema: Schema, d: Dialect, drop: Condition)
    requires "content" in schema && drop == Logical(LogicalOr, TextMatch("content", Contains, "a"), Constant(true))
    ensures Rendering(schema, d, 0, drop) == Ok(Rendered(TRIVIAL, [Str("%a%")]))
  {
    assert Escape("a", BACKSLASH) == "a" by { assert Escape("", BACKSLASH) == ""; assert "a"[1..] == ""; }
    assert Pattern(Contains, "a", BACKSLASH) == "%a%";
    assert Rendering(schema, d, 0, drop.left) == RenderLeaf(schema, d, 0, drop.left);
    assert Rendering(schema, d, 0, drop.left).value.args == [Str("%a%")];
    assert Rendering(schema, d, 1, drop.right) == Ok(Rendered(TRIVIAL, []));
    assert [Str("%a%")] + [] == [Str("%a%")];
  }

  lemma KeepRenders(schema: Schema, d: Dialect, keep: Condition)
    requires "creator_id" in schema && schema["creator_id"].kind == Scalar && schema["creator_id"].typ == IntType
    requires keep == Comparison(FieldRef("creator_id"), Eq, Literal(Int(3)))
    ensures Rendering(schema, d, 1, keep) == Ok(OneArg(d, 1, Column("creator_id"), Eq, Int(3)))
  {
    assert Rendering(schema, d, 1, keep) == RenderLeaf(schema, d, 1, keep);
    assert RenderComparison(schema, d, 1, keep.lhs, Eq, keep.rhs)
        == RenderScalarComparison(d, 1, "creator_id", IntType, Eq, keep.rhs);
  }

}
