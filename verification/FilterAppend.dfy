/** Appending compiled filters to a query's WHERE clauses and arguments: which argument each placeholder of the whole
    text reads, when the database takes it, and what it answers, from CEL to the rows. */
module FilterAppend {
  import opened Wrappers
  import opened Like
  import opened FilterIr
  import opened FilterSql
  import opened FilterRender
  import opened FilterFolding
  import opened FilterShape
  import opened FilterMeaning
  import opened FilterParser
  import opened FilterSource

  datatype Clauses = Clauses(where: seq<Sql>, args: seq<Value>)

  function Compile(ctx: Context, d: Dialect, offset: nat, filter: Expr): Result<Statement> {
    var c :- BuildCondition(filter, ctx);
    StatementFor(ctx.schema, d, offset, c)
  }

  /** A blank statement contributes neither text nor arguments. */
  function AppendOne(q: Clauses, s: Statement): Clauses {
    if s.sql == Blank then q else Clauses(q.where + [s.sql], q.args + s.args)
  }

  /** The clauses after appending, and whether a filter was rejected on the way. */
  function Appended(ctx: Context, d: Dialect, filters: seq<Expr>, q: Clauses): (Clauses, Result<()>)
    decreases |filters|
  {
    if filters == [] then (q, Ok(()))
    else match Compile(ctx, d, |q.args|, filters[0])
      case Err(e) => (q, Err(e))
      case Ok(s) => Appended(ctx, d, filters[1..], AppendOne(q, s))
  }

  class Query {
    var where: seq<Sql>
    var args: seq<Value>

    constructor (where: seq<Sql>, args: seq<Value>)
      ensures this.where == where && this.args == args
    {
      this.where, this.args := where, args;
    }

    method AppendConditions(ctx: Context, d: Dialect, filters: seq<Expr>) returns (r: Result<()>)
      modifies this
      ensures (Clauses(where, args), r) == Appended(ctx, d, filters, old(Clauses(where, args)))
    {
      for i := 0 to |filters|
        invariant Appended(ctx, d, filters, old(Clauses(where, args)))
             == Appended(ctx, d, filters[i..], Clauses(where, args))
      {
        assert filters[i..][1..] == filters[i + 1..];
        var c := BuildCondition(filters[i], ctx);
        if c.Err? { return Err(c.error); }
        var renderer := new Renderer(ctx.schema, d, |args|);
        var s := renderer.Render(c.value);
        if s.Err? { return Err(s.error); }
        if s.value.sql != Blank {
          where := where + [s.value.sql];
          args := args + s.value.args;
        }
      }
      r := Ok(());
    }
  }

  // The text as the database reads it.

  function HoleSum(where: seq<Sql>): nat
    decreases |where|
  {
    if where == [] then 0 else HoleSum(where[..|where| - 1]) + HoleCount(where[|where| - 1])
  }

  /** The conjunction of the clauses; placeholders are numbered through the whole text. */
  function EvalAll(d: Dialect, w: World, row: Row, where: seq<Sql>, args: seq<Value>): Tri
    decreases |where|
  {
    if where == [] then T
    else
      var init := where[..|where| - 1];
      And3(EvalAll(d, w, row, init, args), Eval(d, w, row, where[|where| - 1], args, HoleSum(init)))
  }

  function Labels(hs: seq<Hole>): (r: seq<nat>)
    ensures |r| == |hs| && forall i :: 0 <= i < |hs| ==> r[i] == hs[i].n
  {
    seq(|hs|, i requires 0 <= i < |hs| => hs[i].n)
  }

  /** The arguments the placeholders were written for, in the order of the text. */
  function AllLabels(where: seq<Sql>): (r: seq<nat>)
    ensures |r| == HoleSum(where)
    decreases |where|
  {
    if where == [] then [] else AllLabels(where[..|where| - 1]) + Labels(Holes(where[|where| - 1]))
  }

  /** The clauses write no more placeholders than there are arguments. */
  predicate Covered(q: Clauses) { HoleSum(q.where) <= |q.args| }

  /** They write exactly as many. */
  predicate Numbered(q: Clauses) { HoleSum(q.where) == |q.args| }

  predicate AnyEmptyIn(where: seq<Sql>) { exists i :: 0 <= i < |where| && HasEmptyIn(where[i]) }

  /** Whether the database takes the clauses: see `Accepts`. */
  predicate AcceptsAll(d: Dialect, q: Clauses) {
    && (d != SQLite ==> !AnyEmptyIn(q.where))
    && (d == MySQL ==> Numbered(q))
    && (d == Postgres ==> forall m: nat :: 0 < m < |q.args| + 1 ==> m in AllLabels(q.where))
  }

  function AnswerAll(d: Dialect, w: World, row: Row, q: Clauses): Option<Tri> {
    if AcceptsAll(d, q) then Some(EvalAll(d, w, row, q.where, q.args)) else None
  }

  /** What the CEL filters say of a row together. */
  function AllMeaning(ctx: Context, regex: (string, string) -> bool, row: Row, filters: seq<Expr>): Tri
    decreases |filters|
  {
    if filters == [] then T
    else And3(CelMeaning(ctx, regex, row, filters[0]), AllMeaning(ctx, regex, row, filters[1..]))
  }

  // Which argument each placeholder reads.

  /** The placeholders were written for increasing arguments. */
  predicate Tracked(q: Clauses) { Increasing(AllLabels(q.where), 0, |q.args|) }

  /** An argument no placeholder was written for. */
  predicate Unread(q: Clauses, m: nat) { 0 < m <= |q.args| && m !in AllLabels(q.where) }

  lemma LabelsOfMarks(d: Dialect, ls: seq<nat>)
    ensures Labels(MarksOf(d, ls)) == ls
  {
  }

  lemma AllLabelsSnoc(where: seq<Sql>, last: Sql)
    ensures AllLabels(where + [last]) == AllLabels(where) + Labels(Holes(last))
    ensures HoleSum(where + [last]) == HoleSum(where) + HoleCount(last)
  {
    assert (where + [last])[..|where|] == where;
  }

  /** What appending one statement adds. */
  predicate Adds(schema: Schema, d: Dialect, q: Clauses, c: Condition, s: Statement) {
    var next := AppendOne(q, s);
    && |next.args| == |q.args| + (if Fold(c) == Some(true) then 0 else ArgCount(schema, d, c))
    && AllLabels(next.where) == AllLabels(q.where) + KeptLabels(schema, d, |q.args|, c)
  }

  lemma StatementAdds(schema: Schema, d: Dialect, q: Clauses, c: Condition, s: Statement)
    requires StatementFor(schema, d, |q.args|, c) == Ok(s)
    ensures Adds(schema, d, q, c, s)
  {
    var ls := KeptLabels(schema, d, |q.args|, c);
    StatementShape(schema, d, |q.args|, c);
    if s.sql == Blank {
      FoldedKeepsNothing(schema, d, |q.args|, c);
      assert AllLabels(q.where) + [] == AllLabels(q.where);
    } else {
      AllLabelsSnoc(q.where, s.sql);
      LabelsOfMarks(d, ls);
    }
  }

  lemma StatementTracked(schema: Schema, d: Dialect, q: Clauses, c: Condition, s: Statement)
    requires StatementFor(schema, d, |q.args|, c) == Ok(s) && Tracked(q)
    ensures Tracked(AppendOne(q, s))
  {
    var n, ls := |q.args|, KeptLabels(schema, d, |q.args|, c);
    StatementAdds(schema, d, q, c, s);
    LabelsIncrease(schema, d, n, c);
    FoldedKeepsNothing(schema, d, n, c);
    IncreasingConcat(AllLabels(q.where), ls, 0, n, |AppendOne(q, s).args|);
  }

  /** The filter stays in the text, and folding drops the argument. */
  predicate FilterDrops(ctx: Context, d: Dialect, offset: nat, filter: Expr, m: nat) {
    match BuildCondition(filter, ctx)
    case Ok(c) => Fold(c) != Some(true) && Drops(ctx.schema, d, offset, c, m)
    case Err(_) => false
  }

  /** Some appended filter drops the m-th argument. */
  predicate AppendDrops(ctx: Context, d: Dialect, filters: seq<Expr>, q: Clauses, m: nat)
    decreases |filters|
  {
    filters != [] && Compile(ctx, d, |q.args|, filters[0]).Ok? &&
    (|| FilterDrops(ctx, d, |q.args|, filters[0], m)
     || AppendDrops(ctx, d, filters[1..], AppendOne(q, Compile(ctx, d, |q.args|, filters[0]).value), m))
  }

  lemma StatementUnreadIff(ctx: Context, d: Dialect, q: Clauses, filter: Expr, s: Statement, m: nat)
    requires Compile(ctx, d, |q.args|, filter) == Ok(s) && Tracked(q)
    ensures Unread(AppendOne(q, s), m) <==> Unread(q, m) || FilterDrops(ctx, d, |q.args|, filter, m)
  {
    var c := BuildCondition(filter, ctx).value;
    StatementAdds(ctx.schema, d, q, c, s);
    FoldedKeepsNothing(ctx.schema, d, |q.args|, c);
    KeptIffNotDropped(ctx.schema, d, |q.args|, c, m);
    UnreadAdded(AllLabels(q.where), KeptLabels(ctx.schema, d, |q.args|, c), |q.args|, m);
  }

  lemma UnreadAdded(ls: seq<nat>, added: seq<nat>, n: nat, m: nat)
    requires Increasing(ls, 0, n)
    ensures m in ls + added <==> m in ls || m in added
    ensures m in ls ==> m <= n
  {
  }

  lemma {:induction false} AppendedUnreadIff(ctx: Context, d: Dialect, filters: seq<Expr>, q: Clauses, m: nat)
    requires Appended(ctx, d, filters, q).1.Ok? && Tracked(q)
    ensures Tracked(Appended(ctx, d, filters, q).0)
    ensures Unread(Appended(ctx, d, filters, q).0, m) <==> Unread(q, m) || AppendDrops(ctx, d, filters, q, m)
    decreases |filters|
  {
    if filters != [] {
      var s := Compile(ctx, d, |q.args|, filters[0]).value;
      StatementTracked(ctx.schema, d, q, BuildCondition(filters[0], ctx).value, s);
      StatementUnreadIff(ctx, d, q, filters[0], s, m);
      AppendedUnreadIff(ctx, d, filters[1..], AppendOne(q, s), m);
    }
  }

  /** No argument before the k-th is unread, neither one of the query's own nor one a filter dropped. */
  ghost predicate AllReadBefore(ctx: Context, d: Dialect, filters: seq<Expr>, q: Clauses, k: nat) {
    forall m: nat :: m < k ==> !Unread(q, m) && !AppendDrops(ctx, d, filters, q, m)
  }

  /** The j-th `?` of the whole text stands at the argument it was written for exactly when no argument before that one
      was dropped, by its own filter or by an earlier one. */
  lemma AppendedBindsIff(ctx: Context, d: Dialect, filters: seq<Expr>, q: Clauses, j: nat)
    requires Appended(ctx, d, filters, q).1.Ok? && Tracked(q)
    requires j < |AllLabels(Appended(ctx, d, filters, q).0.where)|
    ensures var own := AllLabels(Appended(ctx, d, filters, q).0.where)[j];
      own == j + 1 <==> AllReadBefore(ctx, d, filters, q, own)
  {
    var f := Appended(ctx, d, filters, q).0;
    var ls, n := AllLabels(f.where), |f.args|;
    AppendedUnreadIff(ctx, d, filters, q, 0);
    InPlaceIff(ls, 0, n, j);
    forall m: nat
      ensures Unread(f, m) <==> Unread(q, m) || AppendDrops(ctx, d, filters, q, m)
    {
      AppendedUnreadIff(ctx, d, filters, q, m);
    }
    NoneUnreadIff(f, ls[j]);
  }

  lemma NoneUnreadIff(f: Clauses, k: nat)
    requires k <= |f.args| + 1
    ensures NoneMissing(AllLabels(f.where), 0, k) <==> forall m: nat :: m < k ==> !Unread(f, m)
  {
    var ls := AllLabels(f.where);
    if forall m: nat :: m < k ==> !Unread(f, m) {
      forall m: nat | 0 < m < k
        ensures m in ls
      {
        assert !Unread(f, m);
      }
    }
  }

  // How many placeholders there are.

  /** The filter's placeholders number its arguments: it vanishes, or folding drops no argument. */
  predicate Aligned(ctx: Context, d: Dialect, filter: Expr) {
    match BuildCondition(filter, ctx)
    case Ok(c) => Fold(c) == Some(true) || KeepsArgs(ctx.schema, d, c)
    case Err(_) => true
  }

  lemma OneAlignedIff(ctx: Context, d: Dialect, q: Clauses, filter: Expr, s: Statement)
    requires Compile(ctx, d, |q.args|, filter) == Ok(s) && Covered(q)
    ensures Covered(AppendOne(q, s))
    ensures Numbered(AppendOne(q, s)) <==> Numbered(q) && Aligned(ctx, d, filter)
  {
    var c := BuildCondition(filter, ctx).value;
    StatementAdds(ctx.schema, d, q, c, s);
    KeepsAllIff(ctx.schema, d, |q.args|, c);
    FoldedKeepsNothing(ctx.schema, d, |q.args|, c);
  }

  /** Every filter is aligned. */
  predicate AllAligned(ctx: Context, d: Dialect, filters: seq<Expr>) { forall f :: f in filters ==> Aligned(ctx, d, f) }

  /** Appending never writes more placeholders than arguments, and writes as many exactly when every filter is
      aligned. */
  lemma {:induction false} AppendedAlignedIff(ctx: Context, d: Dialect, filters: seq<Expr>, q: Clauses)
    requires Appended(ctx, d, filters, q).1.Ok? && Covered(q)
    ensures Covered(Appended(ctx, d, filters, q).0)
    ensures Numbered(Appended(ctx, d, filters, q).0) <==> Numbered(q) && AllAligned(ctx, d, filters)
    decreases |filters|
  {
    if filters != [] {
      var s := Compile(ctx, d, |q.args|, filters[0]).value;
      OneAlignedIff(ctx, d, q, filters[0], s);
      AppendedAlignedIff(ctx, d, filters[1..], AppendOne(q, s));
      AlignedCons(ctx, d, filters);
    }
  }

  lemma AlignedCons(ctx: Context, d: Dialect, filters: seq<Expr>)
    requires filters != []
    ensures AllAligned(ctx, d, filters) <==> Aligned(ctx, d, filters[0]) && AllAligned(ctx, d, filters[1..])
  {
    assert filters == [filters[0]] + filters[1..];
  }

  // Which queries the database takes.

  /** The filter keeps no empty `IN`. */
  predicate Listed(ctx: Context, filter: Expr) {
    match BuildCondition(filter, ctx) case Ok(c) => !KeepsEmptyIn(c) case Err(_) => true
  }

  predicate AllListed(ctx: Context, filters: seq<Expr>) { forall f :: f in filters ==> Listed(ctx, f) }

  lemma OneListedIff(ctx: Context, d: Dialect, q: Clauses, filter: Expr, s: Statement)
    requires Compile(ctx, d, |q.args|, filter) == Ok(s)
    ensures AnyEmptyIn(AppendOne(q, s).where) <==> AnyEmptyIn(q.where) || !Listed(ctx, filter)
  {
    var where := AppendOne(q, s).where;
    StatementShape(ctx.schema, d, |q.args|, BuildCondition(filter, ctx).value);
    if s.sql != Blank {
      assert where[|q.where|] == s.sql;
      forall i | 0 <= i < |q.where|
        ensures where[i] == q.where[i]
      {
      }
    }
  }

  lemma {:induction false} AppendedListedIff(ctx: Context, d: Dialect, filters: seq<Expr>, q: Clauses)
    requires Appended(ctx, d, filters, q).1.Ok?
    ensures AnyEmptyIn(Appended(ctx, d, filters, q).0.where) <==> AnyEmptyIn(q.where) || !AllListed(ctx, filters)
    decreases |filters|
  {
    if filters != [] {
      var s := Compile(ctx, d, |q.args|, filters[0]).value;
      OneListedIff(ctx, d, q, filters[0], s);
      AppendedListedIff(ctx, d, filters[1..], AppendOne(q, s));
      assert filters == [filters[0]] + filters[1..];
    }
  }

  /** SQLite takes every query; the others exactly when they took the clauses before, and no filter keeps an empty `IN`
      or drops an argument. */
  lemma AppendedAcceptedIff(ctx: Context, d: Dialect, filters: seq<Expr>, q: Clauses)
    requires Appended(ctx, d, filters, q).1.Ok? && Tracked(q)
    ensures AcceptsAll(d, Appended(ctx, d, filters, q).0)
       <==> d == SQLite || (AcceptsAll(d, q) && AllListed(ctx, filters) && AllAligned(ctx, d, filters))
  {
    var f := Appended(ctx, d, filters, q).0;
    AppendedListedIff(ctx, d, filters, q);
    AppendedUnreadIff(ctx, d, filters, q, 0);
    NumberedIff(q);
    NumberedIff(f);
    AppendedAlignedIff(ctx, d, filters, q);
  }

  /** There are as many placeholders as arguments exactly when each argument has one. */
  lemma NumberedIff(q: Clauses)
    requires Tracked(q)
    ensures Covered(q) && (Numbered(q) <==> NoneMissing(AllLabels(q.where), 0, |q.args| + 1))
  {
    var ls := AllLabels(q.where);
    MentionsAllIff(ls, 0, |q.args|);
    if ls != [] { InPlaceIff(ls, 0, |q.args|, |ls| - 1); }
  }

  // What the database answers.

  /** The filter avoids the inexact cases on this row. */
  ghost predicate Precise(ctx: Context, d: Dialect, w: World, row: Row, filter: Expr) {
    Faithful(ctx, d, w, row, filter)
    && match BuildCondition(filter, ctx) case Ok(c) => ExactLiterals(ctx.schema, c) case Err(_) => true
  }

  /** Placeholders from the k-th on read the arguments they were written for: numbered ones always do. */
  predicate BindsFrom(d: Dialect, where: seq<Sql>, k: nat) {
    d == Postgres || forall j :: k <= j < |AllLabels(where)| ==> AllLabels(where)[j] == j + 1
  }

  lemma {:induction false} AppendedExtends(ctx: Context, d: Dialect, filters: seq<Expr>, q: Clauses)
    ensures q.args <= Appended(ctx, d, filters, q).0.args
    ensures AllLabels(q.where) <= AllLabels(Appended(ctx, d, filters, q).0.where)
    decreases |filters|
  {
    if filters != [] && Compile(ctx, d, |q.args|, filters[0]).Ok? {
      var s := Compile(ctx, d, |q.args|, filters[0]).value;
      StatementAdds(ctx.schema, d, q, BuildCondition(filters[0], ctx).value, s);
      AppendedExtends(ctx, d, filters[1..], AppendOne(q, s));
    }
  }

  /** One appended statement narrows the clauses by its filter's meaning. */
  lemma AppendOneCorrect(ctx: Context, d: Dialect, w: World, row: Row, q: Clauses, filter: Expr, s: Statement,
                         full: seq<Value>)
    requires KeepsMeta(w.fold, BACKSLASH) && RowTyped(ctx.schema, row) && Precise(ctx, d, w, row, filter)
    requires Compile(ctx, d, |q.args|, filter) == Ok(s) && AppendOne(q, s).args <= full
    requires BindsFrom(d, AppendOne(q, s).where, HoleSum(q.where))
    ensures EvalAll(d, w, row, AppendOne(q, s).where, full)
         == And3(EvalAll(d, w, row, q.where, full), CelMeaning(ctx, w.regex, row, filter))
  {
    var c := BuildCondition(filter, ctx).value;
    BuildCorrect(ctx, d, w, row, filter);
    ClauseAdded(ctx.schema, d, w, row, q, c, s, full);
  }

  lemma ClauseAdded(schema: Schema, d: Dialect, w: World, row: Row, q: Clauses, c: Condition, s: Statement,
                    full: seq<Value>)
    requires KeepsMeta(w.fold, BACKSLASH) && RowTyped(schema, row) && ExactLiterals(schema, c)
    requires StatementFor(schema, d, |q.args|, c) == Ok(s) && AppendOne(q, s).args <= full
    requires BindsFrom(d, AppendOne(q, s).where, HoleSum(q.where))
    ensures EvalAll(d, w, row, AppendOne(q, s).where, full)
         == And3(EvalAll(d, w, row, q.where, full), Meaning(schema, d, w, row, c))
  {
    StatementShape(schema, d, |q.args|, c);
    if s.sql == Blank {
      FoldedMeaning(schema, d, w, row, c);
    } else {
      LastClause(schema, d, w, row, q, c, s, full);
    }
  }

  lemma LastClause(schema: Schema, d: Dialect, w: World, row: Row, q: Clauses, c: Condition, s: Statement,
                   full: seq<Value>)
    requires KeepsMeta(w.fold, BACKSLASH) && RowTyped(schema, row) && ExactLiterals(schema, c)
    requires StatementFor(schema, d, |q.args|, c) == Ok(s) && s.sql != Blank && q.args + s.args <= full
    requires BindsFrom(d, q.where + [s.sql], HoleSum(q.where))
    ensures EvalAll(d, w, row, q.where + [s.sql], full)
         == And3(EvalAll(d, w, row, q.where, full), Meaning(schema, d, w, row, c))
  {
    assert (q.where + [s.sql])[..|q.where|] == q.where;
    ClauseReads(schema, d, q, c, s, full);
    StatementEvaluates(schema, d, w, row, |q.args|, c, s, full, HoleSum(q.where));
  }

  lemma ClauseReads(schema: Schema, d: Dialect, q: Clauses, c: Condition, s: Statement, full: seq<Value>)
    requires StatementFor(schema, d, |q.args|, c) == Ok(s) && q.args + s.args <= full
    requires BindsFrom(d, q.where + [s.sql], HoleSum(q.where))
    ensures ReadsOwn(|q.args|, s.args, Holes(s.sql), full, HoleSum(q.where))
  {
    var hs, n, pos := Holes(s.sql), |q.args|, HoleSum(q.where);
    StatementWithin(schema, d, n, c, s);
    AllLabelsSnoc(q.where, s.sql);
    forall j: nat | j < |hs|
      ensures InItsPlace(hs[j], pos + j)
    {
      assert AllLabels(q.where + [s.sql])[pos + j] == hs[j].n;
    }
    SlicePlaced(q.args, s.args, full);
    PlacedReads(n, s.args, hs, full, pos);
  }

  lemma SlicePlaced(before: seq<Value>, own: seq<Value>, full: seq<Value>)
    requires before + own <= full
    ensures Placed(|before|, own, full)
  {
    forall k | 0 <= k < |own|
      ensures full[|before| + k] == own[k]
    {
      assert (before + own)[|before| + k] == own[k];
    }
  }

  /** Whatever is appended later, the query selects the rows the old clauses and all the CEL filters select, provided
      the new placeholders bind (`AppendedBindsIff` says when). */
  lemma {:induction false} AppendedCorrect(ctx: Context, d: Dialect, w: World, row: Row, filters: seq<Expr>, q: Clauses,
                                           full: seq<Value>)
    requires KeepsMeta(w.fold, BACKSLASH) && RowTyped(ctx.schema, row)
    requires forall f :: f in filters ==> Precise(ctx, d, w, row, f)
    requires Appended(ctx, d, filters, q).1.Ok? && Appended(ctx, d, filters, q).0.args <= full
    requires BindsFrom(d, Appended(ctx, d, filters, q).0.where, HoleSum(q.where))
    ensures EvalAll(d, w, row, Appended(ctx, d, filters, q).0.where, full)
         == And3(EvalAll(d, w, row, q.where, full), AllMeaning(ctx, w.regex, row, filters))
    decreases |filters|
  {
    if filters != [] {
      var s := Compile(ctx, d, |q.args|, filters[0]).value;
      var next := AppendOne(q, s);
      assert filters[0] in filters;
      AppendedExtends(ctx, d, filters[1..], next);
      StatementAdds(ctx.schema, d, q, BuildCondition(filters[0], ctx).value, s);
      BindsPart(d, q.where, next.where, Appended(ctx, d, filters, q).0.where);
      AppendOneCorrect(ctx, d, w, row, q, filters[0], s, full);
      AppendedCorrect(ctx, d, w, row, filters[1..], next, full);
      And3Associates(EvalAll(d, w, row, q.where, full), CelMeaning(ctx, w.regex, row, filters[0]),
                     AllMeaning(ctx, w.regex, row, filters[1..]));
    }
  }

  lemma BindsPart(d: Dialect, before: seq<Sql>, next: seq<Sql>, last: seq<Sql>)
    requires AllLabels(before) <= AllLabels(next) <= AllLabels(last) && BindsFrom(d, last, HoleSum(before))
    ensures BindsFrom(d, next, HoleSum(before)) && BindsFrom(d, last, HoleSum(next))
  {
  }

  lemma And3Associates(a: Tri, b: Tri, c: Tri)
    ensures And3(And3(a, b), c) == And3(a, And3(b, c))
  {
  }

  /** A query MySQL takes binds every placeholder. */
  lemma NumberedBinds(d: Dialect, q: Clauses)
    requires Tracked(q) && Numbered(q)
    ensures BindsFrom(d, q.where, 0)
  {
    var ls := AllLabels(q.where);
    NumberedIff(q);
    forall j | 0 <= j < |ls|
      ensures ls[j] == j + 1
    {
      InPlaceIff(ls, 0, |q.args|, j);
    }
  }

  /** The finished query: refused exactly as `AppendedAcceptedIff` says, and otherwise answered as the CEL filters
      are. Only on SQLite can a query be taken whose placeholders misbind. */
  lemma AppendedAnswer(ctx: Context, d: Dialect, w: World, row: Row, filters: seq<Expr>, q: Clauses)
    requires KeepsMeta(w.fold, BACKSLASH) && RowTyped(ctx.schema, row)
    requires forall f :: f in filters ==> Precise(ctx, d, w, row, f)
    requires Appended(ctx, d, filters, q).1.Ok? && Tracked(q)
    requires d == SQLite ==> BindsFrom(d, Appended(ctx, d, filters, q).0.where, HoleSum(q.where))
    ensures var f := Appended(ctx, d, filters, q).0;
      AnswerAll(d, w, row, f)
      == if d == SQLite || (AcceptsAll(d, q) && AllListed(ctx, filters) && AllAligned(ctx, d, filters))
         then Some(And3(EvalAll(d, w, row, q.where, f.args), AllMeaning(ctx, w.regex, row, filters)))
         else None
  {
    var f := Appended(ctx, d, filters, q).0;
    AppendedAcceptedIff(ctx, d, filters, q);
    if AcceptsAll(d, f) {
      AppendedUnreadIff(ctx, d, filters, q, 0);
      if d == MySQL { NumberedBinds(d, f); }
      AppendedCorrect(ctx, d, w, row, filters, q, f.args);
    }
  }
}
