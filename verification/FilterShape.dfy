/** The shape of rendered statements: which arguments folding drops, which argument each placeholder was written for,
    where it stands, and which statements the databases take. */
module FilterShape {
  import opened Wrappers
  import opened FilterIr
  import opened FilterSql
  import opened FilterRender
  import opened FilterFolding

  // Labels.

  lemma {:induction false} LabelsIncrease(schema: Schema, d: Dialect, base: nat, c: Condition)
    ensures Increasing(KeptLabels(schema, d, base, c), base, base + ArgCount(schema, d, c))
    decreases c
  {
    match c
    case Logical(op, l, r) =>
      var mid, hi := base + ArgCount(schema, d, l), base + ArgCount(schema, d, l) + ArgCount(schema, d, r);
      LabelsIncrease(schema, d, base, l);
      LabelsIncrease(schema, d, mid, r);
      IncreasingConcat(KeptLabels(schema, d, base, l), KeptLabels(schema, d, mid, r), base, mid, hi);
      OperatorUnfolds(schema, d, base, mid, op, l, r);
    case Not(e) => LabelsIncrease(schema, d, base, e);
    case _ =>
  }

  lemma IncreasingConcat(a: seq<nat>, b: seq<nat>, lo: nat, mid: nat, hi: nat)
    requires Increasing(a, lo, mid) && Increasing(b, mid, hi) && lo <= mid <= hi
    ensures Increasing(a + b, lo, hi)
  {
  }

  lemma {:induction false} KeptIffNotDropped(schema: Schema, d: Dialect, base: nat, c: Condition, m: nat)
    ensures KeptOrDropped(schema, d, base, c, m)
    decreases c
  {
    match c
    case Logical(op, l, r) =>
      var mid := base + ArgCount(schema, d, l);
      KeptIffNotDropped(schema, d, base, l, m);
      KeptIffNotDropped(schema, d, mid, r, m);
      OperatorKept(schema, d, base, mid, mid + ArgCount(schema, d, r), op, l, r, m);
    case Not(e) => KeptIffNotDropped(schema, d, base, e, m);
    case Constant(_) =>
    case _ => LabelsFromAll(base, ArgCount(schema, d, c), m);
  }

  lemma OperatorKept(schema: Schema, d: Dialect, base: nat, mid: nat, hi: nat, op: LogicalOp, l: Condition,
                     r: Condition, m: nat)
    requires mid == base + ArgCount(schema, d, l) && hi == mid + ArgCount(schema, d, r)
    requires KeptOrDropped(schema, d, base, l, m) && KeptOrDropped(schema, d, mid, r, m)
    ensures KeptOrDropped(schema, d, base, Logical(op, l, r), m)
  {
    var absorbs, dl, dr := Absorbs(op, Fold(l), Fold(r)), Drops(schema, d, base, l, m), Drops(schema, d, mid, r, m);
    var ls, rs := KeptLabels(schema, d, base, l), KeptLabels(schema, d, mid, r);
    ComplementsJoin(ls, rs, base, mid, hi, dl, dr, absorbs, m);
    OperatorUnfolds(schema, d, base, mid, op, l, r);
    OperatorDrops(schema, d, base, mid, hi, op, l, r, m);
    KeptByValues(schema, d, base, Logical(op, l, r), m, Joined(absorbs, ls, rs), hi,
                 (absorbs && base < m <= hi) || dl || dr);
  }

  lemma KeptByValues(schema: Schema, d: Dialect, base: nat, c: Condition, m: nat, ls: seq<nat>, hi: nat, dropped: bool)
    requires KeptLabels(schema, d, base, c) == ls && base + ArgCount(schema, d, c) == hi
    requires Drops(schema, d, base, c, m) == dropped && Complement(ls, base, hi, dropped, m)
    ensures KeptOrDropped(schema, d, base, c, m)
  {
  }

  /** An operator in terms of its operands. */
  lemma OperatorUnfolds(schema: Schema, d: Dialect, base: nat, mid: nat, op: LogicalOp, l: Condition, r: Condition)
    requires mid == base + ArgCount(schema, d, l)
    ensures ArgCount(schema, d, Logical(op, l, r)) == ArgCount(schema, d, l) + ArgCount(schema, d, r)
    ensures KeptLabels(schema, d, base, Logical(op, l, r))
         == Joined(Absorbs(op, Fold(l), Fold(r)), KeptLabels(schema, d, base, l), KeptLabels(schema, d, mid, r))
  {
  }

  lemma OperatorDrops(schema: Schema, d: Dialect, base: nat, mid: nat, hi: nat, op: LogicalOp, l: Condition,
                      r: Condition, m: nat)
    requires mid == base + ArgCount(schema, d, l) && hi == mid + ArgCount(schema, d, r)
    ensures Drops(schema, d, base, Logical(op, l, r), m)
       <==> || (Absorbs(op, Fold(l), Fold(r)) && base < m <= hi)
            || Drops(schema, d, base, l, m) || Drops(schema, d, mid, r, m)
  {
  }

  lemma OperatorFolds(op: LogicalOp, l: Condition, r: Condition)
    ensures Fold(Logical(op, l, r)) == Combined(op, Fold(l), Fold(r))
    ensures KeepsEmptyIn(Logical(op, l, r)) <==> !Absorbs(op, Fold(l), Fold(r)) && (KeepsEmptyIn(l) || KeepsEmptyIn(r))
  {
  }

  lemma ComplementsJoin(ls: seq<nat>, rs: seq<nat>, lo: nat, mid: nat, hi: nat, dl: bool, dr: bool, absorbs: bool,
                        m: nat)
    requires lo <= mid <= hi && Complement(ls, lo, mid, dl, m) && Complement(rs, mid, hi, dr, m)
    ensures Complement(Joined(absorbs, ls, rs), lo, hi, (absorbs && lo < m <= hi) || dl || dr, m)
  {
  }

  lemma LabelsFromAll(base: nat, n: nat, m: nat)
    ensures m in LabelsFrom(base, n) <==> base < m <= base + n
  {
    if base < m <= base + n { assert LabelsFrom(base, n)[m - base - 1] == m; }
  }

  /** Nothing is dropped exactly when as many labels are kept as arguments added. */
  lemma {:induction false} KeepsAllIff(schema: Schema, d: Dialect, base: nat, c: Condition)
    ensures |KeptLabels(schema, d, base, c)| <= ArgCount(schema, d, c)
    ensures |KeptLabels(schema, d, base, c)| == ArgCount(schema, d, c) <==> KeepsArgs(schema, d, c)
    decreases c
  {
    match c
    case Logical(op, l, r) =>
      KeepsAllIff(schema, d, base, l);
      KeepsAllIff(schema, d, base + ArgCount(schema, d, l), r);
    case Not(e) => KeepsAllIff(schema, d, base, e);
    case _ =>
  }

  /** A tree that folds keeps nothing. */
  lemma {:induction false} FoldedKeepsNothing(schema: Schema, d: Dialect, base: nat, c: Condition)
    ensures Fold(c).Some? ==> KeptLabels(schema, d, base, c) == [] && !KeepsEmptyIn(c)
    decreases c
  {
    match c
    case Logical(op, l, r) =>
      FoldedKeepsNothing(schema, d, base, l);
      FoldedKeepsNothing(schema, d, base + ArgCount(schema, d, l), r);
    case Not(e) => FoldedKeepsNothing(schema, d, base, e);
    case _ =>
  }

  /** A label stands at its own place exactly when all labels before it stand in front of it. */
  lemma {:induction false} InPlaceIff(ls: seq<nat>, lo: nat, hi: nat, j: nat)
    requires Increasing(ls, lo, hi) && j < |ls|
    ensures ls[j] >= lo + j + 1
    ensures ls[j] == lo + j + 1 <==> NoneMissing(ls, lo, ls[j])
    decreases |ls|
  {
    var first, rest := ls[0], ls[1..];
    assert ls == [first] + rest;
    if j > 0 {
      InPlaceIff(rest, first, hi, j - 1);
      assert rest[j - 1] == ls[j];
    }
    if first == lo + 1 {
      if j > 0 { AddedInFront(rest, lo, ls[j]); }
    } else {
      assert lo + 1 !in ls;
      assert lo + 1 < ls[j];
    }
  }

  lemma AddedInFront(rest: seq<nat>, lo: nat, k: nat)
    ensures NoneMissing([lo + 1] + rest, lo, k) <==> NoneMissing(rest, lo + 1, k)
  {
    forall m: nat
      ensures m in [lo + 1] + rest <==> m == lo + 1 || m in rest
    {
    }
    if NoneMissing([lo + 1] + rest, lo, k) {
      forall m: nat | lo + 1 < m < k
        ensures m in rest
      {
        assert m in [lo + 1] + rest;
      }
    }
  }

  // Leaves.

  lemma {:induction false} InArgsLength(typ: FieldType, values: seq<ValueExpr>)
    requires InArgs(typ, values).Ok?
    ensures |InArgs(typ, values).value| == |values|
    decreases |values|
  {
    if values != [] { InArgsLength(typ, values[1..]); }
  }

  /** One placeholder per argument, each in its place, and no blank text. */
  predicate LeafShaped(d: Dialect, base: nat, p: Rendered, n: nat, emptyIn: bool) {
    && |p.args| == n && Holes(p.res.sql) == Marks(d, base, n)
    && p.res == Plain(p.res.sql) && !HasBlank(p.res.sql) && (HasEmptyIn(p.res.sql) <==> emptyIn)
  }

  lemma OneMark(d: Dialect, base: nat)
    ensures Marks(d, base, 1) == [Mark(d, base + 1)]
  {
  }

  lemma InShape(schema: Schema, d: Dialect, base: nat, member: ValueExpr, values: seq<ValueExpr>)
    requires RenderIn(schema, d, base, member, values).Ok?
    ensures LeafShaped(d, base, RenderIn(schema, d, base, member, values).value, |values|,
                       IsEmptyIn(In(member, values)))
  {
    if member.name == "tag" {
      TagListShape(d, base, ResolveAlias(schema, "tag").value.name, values);
    } else {
      InArgsLength(schema[member.name].typ, values);
    }
  }

  predicate TestsShaped(d: Dialect, base: nat, sql: Sql, n: nat) {
    Holes(sql) == Marks(d, base, n) && !HasBlank(sql) && !HasEmptyIn(sql)
  }

  lemma TagTestShape(d: Dialect, base: nat, list: string, v: string)
    ensures TestsShaped(d, base, TagTest(d, base, list, v), 1)
  {
    ComprehensionHoles(d, Exists, list, Equals(v), base);
  }

  lemma {:induction false} TagListShape(d: Dialect, base: nat, list: string, values: seq<ValueExpr>)
    requires TagAlternatives(d, base, list, values).Ok?
    ensures var all := TagAlternatives(d, base, list, values).value;
      |all.0| == |all.1| == |values| && TestsShaped(d, base, AnyOf(all.0), |values|)
    decreases |values|
  {
    if values != [] {
      var rest := TagAlternatives(d, base + 1, list, values[1..]).value;
      var test := TagTest(d, base, list, values[0].value.s);
      TagListShape(d, base + 1, list, values[1..]);
      TagTestShape(d, base, list, values[0].value.s);
      AnyOfShape(d, base, test, rest.0, |values| - 1);
    }
  }

  lemma AnyOfShape(d: Dialect, base: nat, test: Sql, tests: seq<Sql>, n: nat)
    requires TestsShaped(d, base, test, 1) && TestsShaped(d, base + 1, AnyOf(tests), n) && |tests| == n
    ensures TestsShaped(d, base, AnyOf([test] + tests), n + 1)
  {
    assert ([test] + tests)[1..] == tests;
    assert Marks(d, base, n + 1) == Marks(d, base, 1) + Marks(d, base + 1, n);
    if tests != [] { assert AnyOf([test] + tests) == Or(test, AnyOf(tests)); }
  }

  lemma ComprehensionShape(d: Dialect, base: nat, kind: ComprehensionKind, list: string, pred: TagPredicate)
    ensures LeafShaped(d, base, RenderComprehension(d, base, kind, list, pred), ElementArgCount(d, pred), false)
  {
    ComprehensionHoles(d, kind, list, pred, base);
  }

  lemma FlagShape(d: Dialect, base: nat, f: string, op: CompareOp, rhs: ValueExpr)
    requires RenderFlagComparison(d, base, f, op, rhs).Ok?
    ensures LeafShaped(d, base, RenderFlagComparison(d, base, f, op, rhs).value, if d == Postgres then 1 else 0, false)
  {
    OneMark(d, base);
  }

  lemma PathShape(d: Dialect, base: nat, f: string, op: CompareOp, rhs: ValueExpr)
    requires RenderPathComparison(d, f, op, rhs).Ok?
    ensures LeafShaped(d, base, RenderPathComparison(d, f, op, rhs).value, 0, false)
  {
  }

  lemma ScalarShape(d: Dialect, base: nat, f: string, typ: FieldType, op: CompareOp, rhs: ValueExpr)
    requires RenderScalarComparison(d, base, f, typ, op, rhs).Ok?
    ensures LeafShaped(d, base, RenderScalarComparison(d, base, f, typ, op, rhs).value,
                       if rhs == Literal(Null) then 0 else 1, false)
  {
    OneMark(d, base);
  }

  lemma FieldComparisonShape(schema: Schema, d: Dialect, base: nat, f: string, op: CompareOp, rhs: ValueExpr)
    requires RenderComparison(schema, d, base, FieldRef(f), op, rhs).Ok?
    ensures LeafShaped(d, base, RenderComparison(schema, d, base, FieldRef(f), op, rhs).value,
                       ArgCount(schema, d, Comparison(FieldRef(f), op, rhs)), false)
  {
    OneMark(d, base);
    match schema[f].kind {
      case BoolColumn =>
      case JsonBool => FlagShape(d, base, f, op, rhs);
      case JsonExists => PathShape(d, base, f, op, rhs);
      case Scalar => ScalarShape(d, base, f, schema[f].typ, op, rhs);
    }
  }

  lemma ComparisonShape(schema: Schema, d: Dialect, base: nat, lhs: ValueExpr, op: CompareOp, rhs: ValueExpr)
    requires RenderComparison(schema, d, base, lhs, op, rhs).Ok?
    ensures LeafShaped(d, base, RenderComparison(schema, d, base, lhs, op, rhs).value,
                       ArgCount(schema, d, Comparison(lhs, op, rhs)), false)
  {
    OneMark(d, base);
    match lhs
    case FieldRef(f) => FieldComparisonShape(schema, d, base, f, op, rhs);
    case Size(arg) => assert RenderSizeComparison(schema, d, base, arg, op, rhs).Ok?;
    case FieldAccessor(f, accessor) => assert RenderAccessorComparison(schema, d, base, f, accessor, op, rhs).Ok?;
  }

  lemma LeafShape(schema: Schema, d: Dialect, base: nat, c: Condition)
    requires IsLeaf(c) && !c.Constant? && RenderLeaf(schema, d, base, c).Ok?
    ensures LeafShaped(d, base, RenderLeaf(schema, d, base, c).value, ArgCount(schema, d, c), IsEmptyIn(c))
  {
    OneMark(d, base);
    match c
    case Comparison(lhs, op, rhs) => ComparisonShape(schema, d, base, lhs, op, rhs);
    case In(member, values) => InShape(schema, d, base, member, values);
    case ListComprehension(kind, f, pred) => ComprehensionShape(d, base, kind, f, pred);
    case ElementIn(element, f) => ComprehensionShape(d, base, Exists, f, Equals(element.value.s));
    case FieldPredicate(_) =>
    case TextMatch(_, _, _) =>
    case Regex(_, _) =>
  }

  // Whole trees.

  function MarksOf(d: Dialect, ls: seq<nat>): (r: seq<Hole>)
    ensures |r| == |ls| && forall i :: 0 <= i < |ls| ==> r[i] == Mark(d, ls[i])
  {
    seq(|ls|, i requires 0 <= i < |ls| => Mark(d, ls[i]))
  }

  /** The result a tree that folds to this must have. */
  predicate FoldsTo(x: RenderResult, fold: Option<bool>) {
    match fold
    case Some(true) => x == TRIVIAL
    case Some(false) => x == UNSATISFIABLE
    case None => x == Plain(x.sql) && !HasBlank(x.sql)
  }

  /** A rendering carries all the tree's arguments and the placeholders of the kept ones, in order; it folds exactly
      when its tree does, and keeps an empty `IN` exactly when its tree does. */
  predicate Shaped(d: Dialect, p: Rendered, n: nat, labels: seq<nat>, fold: Option<bool>, emptyIn: bool) {
    && |p.args| == n && Holes(p.res.sql) == MarksOf(d, labels)
    && FoldsTo(p.res, fold) && (HasEmptyIn(p.res.sql) <==> emptyIn)
  }

  predicate TreeShaped(schema: Schema, d: Dialect, base: nat, p: Rendered, c: Condition) {
    Shaped(d, p, ArgCount(schema, d, c), KeptLabels(schema, d, base, c), Fold(c), KeepsEmptyIn(c))
  }

  lemma OperatorShaped(schema: Schema, d: Dialect, base: nat, next: nat, op: LogicalOp, cl: Condition, cr: Condition,
                       l: Rendered, r: Rendered)
    requires TreeShaped(schema, d, base, l, cl) && TreeShaped(schema, d, next, r, cr)
    requires next == base + ArgCount(schema, d, cl)
    ensures TreeShaped(schema, d, base, Rendered(Combine(op, l.res, r.res), l.args + r.args), Logical(op, cl, cr))
  {
    var absorbs := Absorbs(op, Fold(cl), Fold(cr));
    OperandsShaped(schema, d, base, next, op, cl, cr, l, r);
    OperatorUnfolds(schema, d, base, next, op, cl, cr);
    OperatorFolds(op, cl, cr);
    ShapedByValues(schema, d, base, Rendered(Combine(op, l.res, r.res), l.args + r.args), Logical(op, cl, cr),
                   ArgCount(schema, d, cl) + ArgCount(schema, d, cr),
                   Joined(absorbs, KeptLabels(schema, d, base, cl), KeptLabels(schema, d, next, cr)),
                   Combined(op, Fold(cl), Fold(cr)), !absorbs && (KeepsEmptyIn(cl) || KeepsEmptyIn(cr)));
  }

  lemma ShapedByValues(schema: Schema, d: Dialect, base: nat, p: Rendered, c: Condition,
                       n: nat, labels: seq<nat>, fold: Option<bool>, emptyIn: bool)
    requires ArgCount(schema, d, c) == n && KeptLabels(schema, d, base, c) == labels
    requires Fold(c) == fold && KeepsEmptyIn(c) == emptyIn && Shaped(d, p, n, labels, fold, emptyIn)
    ensures TreeShaped(schema, d, base, p, c)
  {
  }

  lemma OperandsShaped(schema: Schema, d: Dialect, base: nat, next: nat, op: LogicalOp, cl: Condition, cr: Condition,
                       l: Rendered, r: Rendered)
    requires TreeShaped(schema, d, base, l, cl) && TreeShaped(schema, d, next, r, cr)
    ensures var absorbs := Absorbs(op, Fold(cl), Fold(cr));
      Shaped(d, Rendered(Combine(op, l.res, r.res), l.args + r.args), ArgCount(schema, d, cl) + ArgCount(schema, d, cr),
             Joined(absorbs, KeptLabels(schema, d, base, cl), KeptLabels(schema, d, next, cr)),
             Combined(op, Fold(cl), Fold(cr)), !absorbs && (KeepsEmptyIn(cl) || KeepsEmptyIn(cr)))
  {
    FoldedKeepsNothing(schema, d, base, cl);
    FoldedKeepsNothing(schema, d, next, cr);
    CombineShaped(d, op, l, r, KeptLabels(schema, d, base, cl), KeptLabels(schema, d, next, cr), Fold(cl), Fold(cr),
                  KeepsEmptyIn(cl), KeepsEmptyIn(cr));
  }

  lemma CombineShaped(d: Dialect, op: LogicalOp, l: Rendered, r: Rendered, ls: seq<nat>, rs: seq<nat>,
                      fl: Option<bool>, fr: Option<bool>, el: bool, er: bool)
    requires Shaped(d, l, |l.args|, ls, fl, el) && Shaped(d, r, |r.args|, rs, fr, er)
    requires (fl.Some? ==> ls == [] && !el) && (fr.Some? ==> rs == [] && !er)
    ensures var absorbs := Absorbs(op, fl, fr);
      Shaped(d, Rendered(Combine(op, l.res, r.res), l.args + r.args), |l.args| + |r.args|,
             Joined(absorbs, ls, rs), Combined(op, fl, fr), !absorbs && (el || er))
  {
    assert [] + rs == rs && ls + [] == ls;
    MarksConcat(d, ls, rs);
    match op
    case LogicalAnd => AndFolds(l.res, r.res, fl, fr);
    case LogicalOr => OrFolds(l.res, r.res, fl, fr);
  }

  lemma MarksConcat(d: Dialect, a: seq<nat>, b: seq<nat>)
    ensures MarksOf(d, a) + MarksOf(d, b) == MarksOf(d, a + b)
  {
  }

  lemma AndFolds(l: RenderResult, r: RenderResult, fl: Option<bool>, fr: Option<bool>)
    requires FoldsTo(l, fl) && FoldsTo(r, fr)
    ensures FoldsTo(CombineAnd(l, r), Combined(LogicalAnd, fl, fr))
    ensures CombineAnd(l, r) == if fl == Some(false) || fr == Some(false) then UNSATISFIABLE
                                else if fl.Some? then r else if fr.Some? then l else Plain(And(l.sql, r.sql))
  {
  }

  lemma OrFolds(l: RenderResult, r: RenderResult, fl: Option<bool>, fr: Option<bool>)
    requires FoldsTo(l, fl) && FoldsTo(r, fr)
    ensures FoldsTo(CombineOr(l, r), Combined(LogicalOr, fl, fr))
    ensures CombineOr(l, r) == if fl == Some(true) || fr == Some(true) then TRIVIAL
                               else if fl.Some? then r else if fr.Some? then l else Plain(Or(l.sql, r.sql))
  {
  }

  lemma NegatedShaped(d: Dialect, x: Rendered, n: nat, ls: seq<nat>, fold: Option<bool>, emptyIn: bool)
    requires Shaped(d, x, n, ls, fold, emptyIn) && (fold.Some? ==> ls == [] && !emptyIn)
    ensures Shaped(d, Rendered(Negated(x.res), x.args), n, ls, Flipped(fold), emptyIn)
  {
  }

  lemma {:induction false} RenderingShape(schema: Schema, d: Dialect, base: nat, c: Condition)
    requires Rendering(schema, d, base, c).Ok?
    ensures TreeShaped(schema, d, base, Rendering(schema, d, base, c).value, c)
    decreases c
  {
    if c.Logical? {
      var l := Rendering(schema, d, base, c.left).value;
      RenderingShape(schema, d, base, c.left);
      ArgsCounted(schema, d, base, l, c.left);
      var r := Rendering(schema, d, base + |l.args|, c.right).value;
      RenderingShape(schema, d, base + |l.args|, c.right);
      OperatorShaped(schema, d, base, base + |l.args|, c.op, c.left, c.right, l, r);
    } else if c.Not? {
      var x := Rendering(schema, d, base, c.expr).value;
      RenderingShape(schema, d, base, c.expr);
      NotShaped(schema, d, base, c.expr, x);
    } else {
      LeafTreeShape(schema, d, base, c);
    }
  }

  lemma ArgsCounted(schema: Schema, d: Dialect, base: nat, p: Rendered, c: Condition)
    requires TreeShaped(schema, d, base, p, c)
    ensures |p.args| == ArgCount(schema, d, c)
  {
  }

  lemma NotShaped(schema: Schema, d: Dialect, base: nat, c: Condition, x: Rendered)
    requires TreeShaped(schema, d, base, x, c)
    ensures TreeShaped(schema, d, base, Rendered(Negated(x.res), x.args), Not(c))
  {
    FoldedKeepsNothing(schema, d, base, c);
    NegatedShaped(d, x, ArgCount(schema, d, c), KeptLabels(schema, d, base, c), Fold(c), KeepsEmptyIn(c));
  }

  lemma LeafTreeShape(schema: Schema, d: Dialect, base: nat, c: Condition)
    requires IsLeaf(c) && RenderLeaf(schema, d, base, c).Ok?
    ensures TreeShaped(schema, d, base, RenderLeaf(schema, d, base, c).value, c)
  {
    if !c.Constant? {
      var n := ArgCount(schema, d, c);
      LeafShape(schema, d, base, c);
      assert Marks(d, base, n) == MarksOf(d, LabelsFrom(base, n));
    }
  }

  // What a statement writes.

  lemma StatementShape(schema: Schema, d: Dialect, offset: nat, c: Condition)
    requires StatementFor(schema, d, offset, c).Ok?
    ensures var s := StatementFor(schema, d, offset, c).value;
      && |s.args| == ArgCount(schema, d, c) && Holes(s.sql) == MarksOf(d, KeptLabels(schema, d, offset, c))
      && (s.sql == Blank <==> Fold(c) == Some(true)) && (s.sql != Blank ==> !HasBlank(s.sql))
      && (HasEmptyIn(s.sql) <==> KeepsEmptyIn(c))
  {
    RenderingShape(schema, d, offset, c);
  }

  /** A statement has as many placeholders as arguments exactly when folding dropped none, and never more. */
  lemma PlaceholdersMatchArgsIff(schema: Schema, d: Dialect, offset: nat, c: Condition)
    requires StatementFor(schema, d, offset, c).Ok?
    ensures var s := StatementFor(schema, d, offset, c).value;
      && (HoleCount(s.sql) == |s.args| <==> KeepsArgs(schema, d, c))
      && HoleCount(s.sql) <= |s.args|
  {
    StatementShape(schema, d, offset, c);
    KeepsAllIff(schema, d, offset, c);
  }

  lemma NoneMissingIff(schema: Schema, d: Dialect, offset: nat, c: Condition, k: nat)
    requires k <= offset + ArgCount(schema, d, c)
    ensures NoneMissing(KeptLabels(schema, d, offset, c), offset, k) <==> NoneDroppedBefore(schema, d, offset, c, k)
  {
    var ls := KeptLabels(schema, d, offset, c);
    forall m: nat | m < k
      ensures !Drops(schema, d, offset, c, m) <==> m <= offset || m in ls
    {
      KeptIffNotDropped(schema, d, offset, c, m);
    }
    if NoneDroppedBefore(schema, d, offset, c, k) {
      forall m: nat | offset < m < k
        ensures m in ls
      {
        assert !Drops(schema, d, offset, c, m);
      }
    }
  }

  /** The j-th placeholder, counted through a text with one placeholder per earlier argument, stands at the place of
      the argument it was written for exactly when no argument before that one was dropped. */
  lemma PlaceholderBindsIff(schema: Schema, d: Dialect, offset: nat, c: Condition, j: nat)
    requires StatementFor(schema, d, offset, c).Ok? && j < |Holes(StatementFor(schema, d, offset, c).value.sql)|
    ensures var own := Holes(StatementFor(schema, d, offset, c).value.sql)[j].n;
      && offset + j + 1 <= own <= offset + ArgCount(schema, d, c)
      && (own == offset + j + 1 <==> NoneDroppedBefore(schema, d, offset, c, own))
  {
    var ls := KeptLabels(schema, d, offset, c);
    StatementShape(schema, d, offset, c);
    LabelsIncrease(schema, d, offset, c);
    InPlaceIff(ls, offset, offset + ArgCount(schema, d, c), j);
    NoneMissingIff(schema, d, offset, c, ls[j]);
  }

  /** Every placeholder stands at its own place. */
  predicate BindsInOrder(offset: nat, e: Sql) { forall j :: 0 <= j < |Holes(e)| ==> Holes(e)[j].n == offset + j + 1 }

  lemma KeptAllDropsLast(schema: Schema, d: Dialect, offset: nat, c: Condition)
    requires KeepsArgs(schema, d, c)
    ensures DropsLast(schema, d, offset, c)
  {
    var ls, n := KeptLabels(schema, d, offset, c), ArgCount(schema, d, c);
    KeepsAllIff(schema, d, offset, c);
    LabelsIncrease(schema, d, offset, c);
    MentionsAllIff(ls, offset, n);
    forall k: nat | k in ls
      ensures NoneDroppedBefore(schema, d, offset, c, k)
    {
      NoneMissingIff(schema, d, offset, c, k);
    }
  }

  /** All of them do exactly when the dropped arguments come after the kept ones. */
  lemma StatementBindsIff(schema: Schema, d: Dialect, offset: nat, c: Condition)
    requires StatementFor(schema, d, offset, c).Ok?
    ensures BindsInOrder(offset, StatementFor(schema, d, offset, c).value.sql) <==> DropsLast(schema, d, offset, c)
  {
    var hs, ls := Holes(StatementFor(schema, d, offset, c).value.sql), KeptLabels(schema, d, offset, c);
    StatementShape(schema, d, offset, c);
    forall j: nat | j < |ls|
      ensures hs[j].n == ls[j] && ls[j] in ls
      ensures hs[j].n == offset + j + 1 <==> NoneDroppedBefore(schema, d, offset, c, ls[j])
    {
      PlaceholderBindsIff(schema, d, offset, c, j);
    }
  }

  /** The database takes a statement exactly under the condition on its tree. */
  lemma AcceptedIff(schema: Schema, d: Dialect, offset: nat, c: Condition)
    requires StatementFor(schema, d, offset, c).Ok?
    ensures var s := StatementFor(schema, d, offset, c).value;
      Accepts(d, offset, |s.args|, s.sql) <==> Acceptable(schema, d, c)
  {
    var s, ls := StatementFor(schema, d, offset, c).value, KeptLabels(schema, d, offset, c);
    StatementShape(schema, d, offset, c);
    KeepsAllIff(schema, d, offset, c);
    LabelsIncrease(schema, d, offset, c);
    if d == Postgres {
      MentionsAllIff(ls, offset, |s.args|);
      MentionsAre(ls, s.sql);
    }
  }

  lemma MentionsAre(ls: seq<nat>, e: Sql)
    requires Holes(e) == MarksOf(Postgres, ls)
    ensures forall m: nat :: Dollar(m) in Holes(e) <==> m in ls
  {
    var hs := Holes(e);
    forall m: nat
      ensures Dollar(m) in hs <==> m in ls
    {
      if m in ls {
        var i :| 0 <= i < |ls| && ls[i] == m;
        assert hs[i] == Dollar(m);
      }
      if Dollar(m) in hs {
        var i :| 0 <= i < |ls| && hs[i] == Dollar(m);
        assert ls[i] == m;
      }
    }
  }

  /** Increasing labels mention all of n numbers exactly when there are n of them. */
  lemma MentionsAllIff(ls: seq<nat>, lo: nat, n: nat)
    requires Increasing(ls, lo, lo + n)
    ensures |ls| == n <==> NoneMissing(ls, lo, lo + n + 1)
  {
    if ls == [] {
      if n > 0 { assert lo < lo + 1 < lo + n + 1 && lo + 1 !in ls; }
    } else {
      var last := |ls| - 1;
      InPlaceIff(ls, lo, lo + n, last);
      if NoneMissing(ls, lo, lo + n + 1) {
        assert lo + n in ls;
        assert ls[last] == lo + n;
      }
      if |ls| == n {
        assert ls[last] == lo + n && ls[last] in ls;
        forall m: nat | lo < m < lo + n + 1
          ensures m in ls
        {
        }
      }
    }
  }

}
