/** What folding does to a condition tree's arguments, as conditions a caller can check on the tree. */
module FilterFolding {
  import opened Wrappers
  import opened Like
  import opened FilterIr

  function ElementArgCount(d: Dialect, pred: TagPredicate): nat {
    match pred
    case Equals(_) => 1
    case TextMatchOf(mode, v) => if v == "" then 0 else if d == SQLite && mode == Suffix then 2 else 1
  }

  function LeafArgs(schema: Schema, d: Dialect, c: Condition): nat {
    match c
    case Comparison(FieldRef(f), _, rhs) =>
      if f !in schema then 0
      else if schema[f].kind == JsonBool then (if d == Postgres then 1 else 0)
      else if schema[f].kind == JsonExists || (schema[f].kind == Scalar && rhs == Literal(Null)) then 0
      else 1
    case Comparison(_, _, _) => 1
    case In(_, values) => |values|
    case ElementIn(_, _) => 1
    case TextMatch(_, _, _) => 1
    case Regex(_, _) => 1
    case ListComprehension(_, _, pred) => ElementArgCount(d, pred)
    case _ => 0
  }

  /** How many arguments a subtree adds, folded away or not. */
  function ArgCount(schema: Schema, d: Dialect, c: Condition): nat {
    match c
    case Logical(_, l, r) => ArgCount(schema, d, l) + ArgCount(schema, d, r)
    case Not(e) => ArgCount(schema, d, e)
    case _ => LeafArgs(schema, d, c)
  }

  /** Folding an operator to a constant throws both operands' text away. */
  predicate Absorbs(op: LogicalOp, l: Option<bool>, r: Option<bool>) {
    l == Some(op == LogicalOr) || r == Some(op == LogicalOr)
  }

  function Combined(op: LogicalOp, l: Option<bool>, r: Option<bool>): Option<bool> {
    if Absorbs(op, l, r) then Some(op == LogicalOr) else if l.Some? then r else if r.Some? then l else None
  }

  function Flipped(x: Option<bool>): Option<bool> { match x case Some(b) => Some(!b) case None => None }

  /** The constant a tree folds to, if it does. */
  function Fold(c: Condition): Option<bool> {
    match c
    case Constant(b) => Some(b)
    case Not(e) => Flipped(Fold(e))
    case Logical(op, l, r) => Combined(op, Fold(l), Fold(r))
    case _ => None
  }

  /** No operator that folds to a constant has an operand that adds arguments. */
  predicate KeepsArgs(schema: Schema, d: Dialect, c: Condition) {
    match c
    case Logical(op, l, r) =>
      && KeepsArgs(schema, d, l)
      && KeepsArgs(schema, d, r)
      && (Absorbs(op, Fold(l), Fold(r)) ==> ArgCount(schema, d, l) + ArgCount(schema, d, r) == 0)
    case Not(e) => KeepsArgs(schema, d, e)
    case _ => true
  }

  /** The n labels after `base`. */
  function LabelsFrom(base: nat, n: nat): (r: seq<nat>)
    ensures |r| == n && forall i :: 0 <= i < n ==> r[i] == base + 1 + i
  {
    seq(n, i requires 0 <= i < n => base + 1 + i)
  }

  function Joined(absorbs: bool, ls: seq<nat>, rs: seq<nat>): seq<nat> { if absorbs then [] else ls + rs }

  /** The arguments, numbered from `base + 1` in the order they are added, that keep their placeholders. */
  function KeptLabels(schema: Schema, d: Dialect, base: nat, c: Condition): seq<nat>
    decreases c
  {
    match c
    case Logical(op, l, r) =>
      Joined(Absorbs(op, Fold(l), Fold(r)), KeptLabels(schema, d, base, l),
             KeptLabels(schema, d, base + ArgCount(schema, d, l), r))
    case Not(e) => KeptLabels(schema, d, base, e)
    case Constant(_) => []
    case _ => LabelsFrom(base, ArgCount(schema, d, c))
  }

  /** The m-th argument belongs to an operand of an operator that folds to a constant. */
  predicate Drops(schema: Schema, d: Dialect, base: nat, c: Condition, m: nat)
    decreases c
  {
    match c
    case Logical(op, l, r) =>
      || (Absorbs(op, Fold(l), Fold(r)) && base < m <= base + ArgCount(schema, d, c))
      || Drops(schema, d, base, l, m)
      || Drops(schema, d, base + ArgCount(schema, d, l), r, m)
    case Not(e) => Drops(schema, d, base, e, m)
    case _ => false
  }

  /** No argument before the k-th is dropped. */
  ghost predicate NoneDroppedBefore(schema: Schema, d: Dialect, base: nat, c: Condition, k: nat) {
    forall m: nat :: m < k ==> !Drops(schema, d, base, c, m)
  }

  /** Every dropped argument comes after all that are kept. */
  ghost predicate DropsLast(schema: Schema, d: Dialect, base: nat, c: Condition) {
    forall k: nat :: k in KeptLabels(schema, d, base, c) ==> NoneDroppedBefore(schema, d, base, c, k)
  }

  predicate IsEmptyIn(c: Condition) { c.In? && c.values == [] && c.member != FieldRef("tag") }

  /** An `IN` over nothing stays in the text. */
  predicate KeepsEmptyIn(c: Condition) {
    match c
    case Logical(op, l, r) => !Absorbs(op, Fold(l), Fold(r)) && (KeepsEmptyIn(l) || KeepsEmptyIn(r))
    case Not(e) => KeepsEmptyIn(e)
    case _ => IsEmptyIn(c)
  }

  /** The condition on the tree under which the database takes its statement. */
  predicate Acceptable(schema: Schema, d: Dialect, c: Condition) {
    d == SQLite || (!KeepsEmptyIn(c) && KeepsArgs(schema, d, c))
  }

  // Lists of labels.

  /** Strictly increasing, within bounds. */
  predicate Increasing(ls: seq<nat>, lo: nat, hi: nat) {
    && (forall i :: 0 <= i < |ls| ==> lo < ls[i] <= hi)
    && (forall i, j :: 0 <= i < j < |ls| ==> ls[i] < ls[j])
  }

  /** All numbers between `lo` and `k` are listed. */
  ghost predicate NoneMissing(ls: seq<nat>, lo: nat, k: nat) { forall m: nat :: lo < m < k ==> m in ls }

  /** Of the numbers in a range, a list holds all but the dropped. */
  predicate Complement(ls: seq<nat>, lo: nat, hi: nat, dropped: bool, m: nat) {
    (dropped ==> lo < m <= hi) && (m in ls <==> lo < m <= hi && !dropped)
  }

  /** The m-th argument is kept exactly when no operator drops it. */
  predicate KeptOrDropped(schema: Schema, d: Dialect, base: nat, c: Condition, m: nat) {
    Complement(KeptLabels(schema, d, base, c), base, base + ArgCount(schema, d, c), Drops(schema, d, base, c, m), m)
  }
}
