/** Laws of what meaning, building and rendering share, each stated on the schema's, the row's and the values' own
    parts. */
module FilterLaws {
  import opened Wrappers
  import opened Like
  import opened FilterIr
  import opened FilterSql
  import opened FilterRender
  import opened FilterMeaning
  import opened FilterAccept

  // Three-valued logic.

  /** False, unknown and true in order. */
  function Rank(a: Tri): int { match a case F => 0 case U => 1 case T => 2 }

  /** A conjunction is as true as its falser operand, a disjunction as its truer one; negation turns the order round. */
  lemma KleeneIs(a: Tri, b: Tri)
    ensures Rank(And3(a, b)) == if Rank(a) <= Rank(b) then Rank(a) else Rank(b)
    ensures Rank(Or3(a, b)) == if Rank(a) <= Rank(b) then Rank(b) else Rank(a)
    ensures Rank(Not3(a)) == 2 - Rank(a)
    ensures forall x :: Rank(Tri2(x)) == if x then 2 else 0
  {
  }

  // Comparison.

  /** Of two texts the lesser is a proper prefix of the other, or has the lesser character where they first differ. */
  predicate LessAt(a: string, b: string, k: nat) {
    k <= |a| && k < |b| && a[..k] == b[..k] && (k == |a| || a[k] < b[k])
  }

  lemma {:induction false} TextLessIff(a: string, b: string)
    ensures TextLess(a, b) <==> exists k: nat :: LessAt(a, b, k)
    decreases |a|
  {
    if a == "" || b == "" {
      assert b != "" ==> LessAt(a, b, 0);
    } else {
      TextLessIff(a[1..], b[1..]);
      if TextLess(a, b) {
        if a[0] < b[0] {
          assert LessAt(a, b, 0);
        } else {
          var k: nat :| LessAt(a[1..], b[1..], k);
          assert a[..k + 1] == [a[0]] + a[1..][..k] && b[..k + 1] == [b[0]] + b[1..][..k];
          assert LessAt(a, b, k + 1);
        }
      }
      if k: nat :| LessAt(a, b, k) {
        if k > 0 {
          assert a[0] == a[..k][0] == b[..k][0] == b[0];
          assert a[1..][..k - 1] == a[..k][1..] && b[1..][..k - 1] == b[..k][1..];
          assert LessAt(a[1..], b[1..], k - 1);
        }
      }
    }
  }

  lemma {:induction false} TextsOrdered(a: string, b: string)
    ensures TextLess(a, b) || TextLess(b, a) <==> a != b
    ensures !(TextLess(a, b) && TextLess(b, a))
    decreases |a|
  {
    if a != "" && b != "" {
      TextsOrdered(a[1..], b[1..]);
      assert a == [a[0]] + a[1..] && b == [b[0]] + b[1..];
    }
  }

  /** Numbers, with booleans for 0 and 1, and texts. */
  predicate Ordered(a: Value, b: Value) { (!a.Str? && !a.Null? && !b.Str? && !b.Null?) || (a.Str? && b.Str?) }

  /** Values of one sort are equal or one is less; the other three operators deny these. Any other pair is unknown. */
  lemma ComparisonIs(op: CompareOp, a: Value, b: Value)
    ensures Compare(op, a, b) == U <==> !Ordered(a, b)
    ensures Ordered(a, b) ==>
      && (Compare(Eq, a, b) == T) == (Compare(Lt, a, b) == F && Compare(Lt, b, a) == F)
      && !(Compare(Lt, a, b) == T && Compare(Lt, b, a) == T)
      && Compare(Gt, a, b) == Compare(Lt, b, a)
      && Compare(Neq, a, b) == Not3(Compare(Eq, a, b))
      && Compare(Lte, a, b) == Not3(Compare(Gt, a, b))
      && Compare(Gte, a, b) == Not3(Compare(Lt, a, b))
  {
    if a.Str? && b.Str? { TextsOrdered(a.s, b.s); }
  }

  lemma LessIs(i: int, j: int, x: real, y: real, p: bool, s: string, t: string)
    ensures Compare(Lt, Int(i), Int(j)) == Tri2(i < j)
    ensures Compare(Lt, Real(x), Real(y)) == Tri2(x < y)
    ensures Compare(Lt, Int(i), Real(y)) == Tri2(i as real < y)
    ensures Compare(Eq, Bool(p), Int(i)) == Tri2(i == if p then 1 else 0)
    ensures Compare(Lt, Str(s), Str(t)) == Tri2(exists k: nat :: LessAt(s, t, k))
  {
    TextLessIff(s, t);
  }

  // Aliases.

  /** An alias leads to the field it names, any other field to itself, and nothing to a field that is missing. */
  lemma AliasLeads(schema: Schema, name: string)
    ensures ResolveAlias(schema, name).Some?
       <==> name in schema && (schema[name].kind == VirtualAlias ==> schema[name].aliasFor in schema)
    ensures name in schema && schema[name].kind != VirtualAlias ==>
      ResolveAlias(schema, name) == Some(Resolved(name, schema[name]))
    ensures name in schema && schema[name].kind == VirtualAlias && schema[name].aliasFor in schema ==>
      ResolveAlias(schema, name) == Some(Resolved(schema[name].aliasFor, schema[schema[name].aliasFor]))
  {
  }

  /** One of the listed texts is among the row's tags. */
  predicate SomeListed(row: Row, list: string, values: seq<ValueExpr>) {
    list in row.lists && exists v :: v in row.lists[list] && Literal(Str(v)) in values
  }

  lemma {:induction false} AnyTagIff(row: Row, list: string, values: seq<ValueExpr>)
    ensures AnyTag(row.List(list), values) == Tri2(SomeListed(row, list, values))
    decreases |values|
  {
    if values != [] {
      var rest := values[1..];
      AnyTagIff(row, list, rest);
      assert values == [values[0]] + rest;
      if SomeListed(row, list, values) {
        var v :| v in row.lists[list] && Literal(Str(v)) in values;
        assert Literal(Str(v)) == values[0] || Literal(Str(v)) in rest;
      }
    }
  }

  /** Where `tag` stands for a list, `tag in values` asks whether one of the values is in that list of the row. */
  lemma TagMembershipMeans(schema: Schema, d: Dialect, w: World, row: Row, list: string, values: seq<ValueExpr>)
    requires "tag" in schema && schema["tag"].kind == VirtualAlias && schema["tag"].aliasFor == list
    ensures Meaning(schema, d, w, row, In(FieldRef("tag"), values)) == Tri2(SomeListed(row, list, values))
  {
    AnyTagIff(row, list, values);
  }

  /** It is rendered exactly when the list is in the schema and the values are texts. */
  lemma TagMembershipRenderedIff(schema: Schema, d: Dialect, base: nat, list: string, values: seq<ValueExpr>)
    requires "tag" in schema && schema["tag"].kind == VirtualAlias && schema["tag"].aliasFor == list
    ensures Rendering(schema, d, base, In(FieldRef("tag"), values)).Ok?
       <==> list in schema && forall x :: x in values ==> x.Literal? && x.value.Str?
  {
    RenderedIff(schema, d, base, In(FieldRef("tag"), values));
  }

  /** And the text rendered asks the database for just that. */
  lemma TagMembershipAnswers(schema: Schema, d: Dialect, w: World, row: Row, base: nat, list: string,
                             values: seq<ValueExpr>, p: Rendered, full: seq<Value>, pos: nat)
    requires "tag" in schema && schema["tag"].kind == VirtualAlias && schema["tag"].aliasFor == list
    requires Ready(schema, d, w, row, base, In(FieldRef("tag"), values), p, full, pos)
    ensures Eval(d, w, row, p.res.sql, full, pos) == Tri2(SomeListed(row, list, values))
  {
    RenderingCorrect(schema, d, w, row, base, In(FieldRef("tag"), values), p, full, pos);
    TagMembershipMeans(schema, d, w, row, list, values);
  }

  /** The size of an alias is read, and rendered, as the size of the field it stands for. */
  lemma SizeOfAlias(schema: Schema, d: Dialect, w: World, row: Row, base: nat, f: string, op: CompareOp, rhs: ValueExpr)
    requires f in schema && schema[f].kind == VirtualAlias && schema[f].aliasFor in schema
    requires schema[schema[f].aliasFor].kind != VirtualAlias
    ensures var alias, field := Comparison(Size(FieldRef(f)), op, rhs),
                                Comparison(Size(FieldRef(schema[f].aliasFor)), op, rhs);
      && Meaning(schema, d, w, row, alias) == Meaning(schema, d, w, row, field)
      && Rendering(schema, d, base, alias) == Rendering(schema, d, base, field)
  {
    AliasLeads(schema, f);
    AliasLeads(schema, schema[f].aliasFor);
  }

  /** The size of a list is how many tags the row has under it, that of a text how many characters. */
  lemma SizeMeans(schema: Schema, d: Dialect, w: World, row: Row, f: string, op: CompareOp, n: int)
    requires f in schema && schema[f].kind != VirtualAlias
    ensures Meaning(schema, d, w, row, Comparison(Size(FieldRef(f)), op, Literal(Int(n))))
         == if schema[f].kind == JsonList then
              Compare(op, Int(if f in row.lists then |row.lists[f]| else 0), Int(n))
            else if f in row.scalars && row.scalars[f].Str? then
              Compare(op, Int(|row.scalars[f].s|), Int(n))
            else U
  {
  }

  // Fields.

  /** A field used as a condition holds where the column stores true or 1, the payload `true`, or the path is there. */
  lemma FieldConditionMeans(schema: Schema, d: Dialect, w: World, row: Row, f: string)
    requires f in schema
    ensures var m := Meaning(schema, d, w, row, FieldPredicate(f));
      && (schema[f].kind == BoolColumn ==>
            m == Tri2(f in row.scalars && (row.scalars[f] == Bool(true) || row.scalars[f] == Int(1))))
      && (schema[f].kind == JsonBool ==> m == Tri2(f in row.flags && row.flags[f] == JsonTrue))
      && (schema[f].kind == JsonExists ==> m == Tri2(f in row.paths && row.paths[f] == Present))
  {
  }

  /** A column is compared by the value stored; without one the answer is unknown, except to a comparison with null. */
  lemma ColumnComparisonMeans(schema: Schema, d: Dialect, w: World, row: Row, f: string, op: CompareOp, v: Value)
    requires f in schema && schema[f].kind == Scalar
    ensures var m, stored := Meaning(schema, d, w, row, Comparison(FieldRef(f), op, Literal(v))),
                             f in row.scalars && row.scalars[f] != Null;
      && (v != Null ==> m == if stored then Compare(op, row.scalars[f], v) else U)
      && (v == Null && op == Eq ==> m == Tri2(!stored))
      && (v == Null && op == Neq ==> m == Tri2(stored))
  {
  }

  /** An `IN` over literals is true where one of them equals the value, and else false, or unknown where one of them
      does not compare with it. */
  lemma {:induction false} ListMembershipMeans(v: Value, values: seq<Value>)
    ensures MemberOf(v, values) == T <==> exists u :: u in values && Compare(Eq, v, u) == T
    ensures MemberOf(v, values) == F <==> forall u :: u in values ==> Compare(Eq, v, u) == F
    decreases |values|
  {
    if values != [] {
      ListMembershipMeans(v, values[1..]);
      assert values == [values[0]] + values[1..];
    }
  }

  /** A boolean is passed to SQLite as 0 or 1 and to the others as itself. */
  lemma BooleanArgumentIs(schema: Schema, d: Dialect, base: nat, f: string, op: CompareOp, b: bool)
    requires f in schema && schema[f].kind == BoolColumn
    ensures var r := Rendering(schema, d, base, Comparison(FieldRef(f), op, Literal(Bool(b))));
      r.Ok? && r.value.args == [if d != SQLite then Bool(b) else if b then Int(1) else Int(0)]
  {
  }

  // Conditions.

  /** Of the leaves only a comparison of a boolean JSON field can be one on which the dialects disagree. */
  lemma LeafFlagsAgreeIff(schema: Schema, row: Row, c: Condition)
    requires !c.Logical? && !c.Not?
    ensures FlagsAgree(schema, row, c) <==>
      forall f, op, want :: c == Comparison(FieldRef(f), op, Literal(Bool(want))) ==>
        (f in schema && schema[f].kind == JsonBool ==> FlagAgrees(f, op, want, row.Flag(f)))
  {
  }
}
