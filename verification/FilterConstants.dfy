/** CEL's constants, and exactly when folding them to whole numbers keeps their value. */
module FilterConstants {
  import opened Wrappers
  import opened FilterIr
  import opened Float53
  import opened FilterParser

  // CEL's own constants: integer arithmetic fails on overflow and zero divisors, double arithmetic is exact.

  function Checked(i: int): Option<Value> { if FitsInt64(i) then Some(Int(i)) else None }

  /** Double arithmetic is exact here: rounding is left out. */
  function Times(x: real, y: real): real { x * y }

  function CelArith(op: ArithOp, a: Value, b: Value): Option<Value> {
    if a.Int? && b.Int? then
      match op
      case Add => Checked(a.i + b.i)
      case Sub => Checked(a.i - b.i)
      case Mul => Checked(a.i * b.i)
      case Div => if b.i == 0 then None else Checked(Quot(a.i, b.i))
      case Mod => if b.i == 0 then None else Checked(Rem(a.i, b.i))
    else if a.Real? && b.Real? then
      match op
      case Add => Some(Real(a.r + b.r))
      case Sub => Some(Real(a.r - b.r))
      case Mul => Some(Real(Times(a.r, b.r)))
      case Div => if b.r == 0.0 then None else Some(Real(a.r / b.r))
      case Mod => None
    else None
  }

  function Seconds(t: Option<int>): Option<Value> {
    match t case Some(i) => Some(Int(i)) case None => None
  }

  /** The value of a constant expression, if it is one and evaluates without error. */
  function CelConst(e: Expr, ctx: Context): Option<Value> {
    match e
    case Const(v) => Some(v)
    case Ident(name) => if name == "now" then Some(Int(ctx.now)) else None
    case Call(fn, target, args) =>
      (match fn
       case TimestampFn =>
         if |args| == 1 && args[0].Const? && args[0].v.Str? then Seconds(ctx.parseTime(args[0].v.s))
         else if |args| == 1 && args[0].Const? && args[0].v.Int? then Some(args[0].v)
         else None
       case DurationFn =>
         if |args| == 1 && args[0].Const? && args[0].v.Str? then Seconds(ctx.parseDuration(args[0].v.s)) else None
       case ArithFn(op) =>
         if |args| != 2 then None else
         (match (CelConst(args[0], ctx), CelConst(args[1], ctx))
          case (Some(a), Some(b)) => CelArith(op, a, b)
          case _ => None)
       case NotFn =>
         if |args| != 1 then None else
         (match CelConst(args[0], ctx) case Some(Bool(b)) => Some(Bool(!b)) case _ => None)
       case AccessorFn(accessor) =>
         if target == Some(Ident("now")) && args == [] then Some(Int(CelPart(accessor, ctx.nowClock))) else None
       case _ => None)
    case _ => None
  }

  // One operation.

  predicate Numeric(v: Value) { v.Int? || v.Real? }

  /** The same number, whether written 3 or 3.0. */
  predicate SameValue(u: Value, v: Value) { u == v || (Numeric(u) && Numeric(v) && AsReal(u) == AsReal(v)) }

  lemma SameComparisons(op: CompareOp, u: Value, v: Value, x: Value)
    requires SameValue(u, v)
    ensures Compare(op, u, x) == Compare(op, v, x) && Compare(op, x, u) == Compare(op, x, v)
  {
  }

  function Truncated(v: Value): int
    requires Numeric(v)
  {
    match v case Int(i) => i case Real(r) => Truncate(r)
  }

  /** What truncation takes away, with the number's sign. */
  function Frac(r: real): real { r - (Truncate(r) as real) }

  function Magnitude(r: real): real { if r < 0.0 then -r else r }

  predicate IntsExact(op: ArithOp, a: int, b: int) {
    match op
    case Add => FitsInt64(a + b)
    case Sub => FitsInt64(a - b)
    case Mul => FitsInt64(a * b)
    case Div => b != 0 && FitsInt64(Quot(a, b))
    case Mod => b != 0 && FitsInt64(Rem(a, b))
  }

  /** The quotient is whole and small enough for the divisor's lost fraction not to carry into it. */
  predicate QuotientExact(a: real, b: real) {
    b != 0.0 && Integral(a / b) && FitsInt64((a / b).Floor)
      && Magnitude(a / b) * Magnitude(Frac(b)) < Magnitude(Truncate(b) as real)
  }

  predicate RealsExact(op: ArithOp, a: real, b: real) {
    match op
    case Add => Frac(a) + Frac(b) == 0.0 && FitsInt64(Truncate(a) + Truncate(b))
    case Sub => Frac(a) == Frac(b) && FitsInt64(Truncate(a) - Truncate(b))
    case Mul => ((Integral(a) && Integral(b)) || a == 0.0 || b == 0.0) && FitsInt64(Truncate(a) * Truncate(b))
    case Div => QuotientExact(a, b)
    case Mod => false
  }

  /** When truncating both operands first changes nothing. */
  predicate ArithExact(op: ArithOp, a: Value, b: Value) {
    match (a, b)
    case (Int(i), Int(j)) => IntsExact(op, i, j)
    case (Real(x), Real(y)) => RealsExact(op, x, y)
    case _ => false
  }

  /** CEL's operation has a value, and the folded one is the same number. */
  predicate ArithFolds(op: ArithOp, a: Value, b: Value) {
    && Numeric(a) && Numeric(b) && CelArith(op, a, b).Some?
    && FoldedTo(FoldArith(op, Truncated(a), Truncated(b)), CelArith(op, a, b).value)
  }

  predicate FoldedTo(folded: Result<Option<int>>, v: Value) {
    folded.Ok? && folded.value.Some? && SameValue(Int(folded.value.value), v)
  }

  lemma WrapsBy(i: int) returns (k: int)
    ensures Wrap64(i) == i - k * TWO64
    ensures k == 0 <==> FitsInt64(i)
  {
    k := (i + TWO63) / TWO64;
  }

  /** Wrapping cannot reach a number that close. */
  lemma NearWrap(i: int, x: real)
    requires Magnitude(x - (i as real)) < TWO64 as real
    ensures (Wrap64(i) as real) == x <==> FitsInt64(i) && (i as real) == x
  {
    var k := WrapsBy(i);
    if (Wrap64(i) as real) == x {
      assert x - (i as real) == -((k * TWO64) as real);
    }
  }

  lemma FracBounds(r: real)
    ensures -1.0 < Frac(r) < 1.0 && (r >= 0.0 ==> Frac(r) >= 0.0) && (r <= 0.0 ==> Frac(r) <= 0.0)
    ensures Integral(r) <==> Frac(r) == 0.0
  {
    TruncateBounds(r);
  }

  lemma AddFoldIff(a: real, b: real)
    ensures (Wrap64(Truncate(a) + Truncate(b)) as real) == a + b <==> RealsExact(Add, a, b)
  {
    FracBounds(a);
    FracBounds(b);
    NearWrap(Truncate(a) + Truncate(b), a + b);
  }

  lemma SubFoldIff(a: real, b: real)
    ensures (Wrap64(Truncate(a) - Truncate(b)) as real) == a - b <==> RealsExact(Sub, a, b)
  {
    FracBounds(a);
    FracBounds(b);
    NearWrap(Truncate(a) - Truncate(b), a - b);
  }

  /** Truncating non-negative factors cannot raise the product, and keeps it exactly when nothing is lost. */
  lemma FloorProduct(a: real, b: real, q: int, z: real)
    requires a >= 0.0 && b >= 0.0 && q == a.Floor * b.Floor && z == a * b
    ensures 0.0 <= q as real <= z
    ensures (q as real) == z <==> (Integral(a) && Integral(b)) || a == 0.0 || b == 0.0
  {
    var m, n := a.Floor as real, b.Floor as real;
    var f, g := a - m, b - n;
    var s, t := m * g, f * b;
    assert (q as real) == m * n && m * n >= 0.0;
    assert z == m * n + s + t;
    NonNegative(m, g, s);
    NonNegative(f, b, t);
  }

  lemma NonNegative(x: real, y: real, z: real)
    requires x >= 0.0 && y >= 0.0 && z == x * y
    ensures z >= 0.0 && (z == 0.0 <==> x == 0.0 || y == 0.0)
  {
  }

  lemma SignsOfProduct(x: real, y: real)
    ensures -x * y == -(x * y) && x * -y == -(x * y) && -x * -y == x * y
  {
  }

  /** A number is its size with a sign, and so is its truncation. */
  lemma SizedTruncate(r: real)
    ensures Truncate(r) == if r < 0.0 then -Magnitude(r).Floor else Magnitude(r).Floor
    ensures Integral(Magnitude(r)) <==> Integral(r)
  {
    TruncateBounds(r);
    TruncateBounds(Magnitude(r));
  }

  lemma SizedProduct(a: real, b: real, p: int, q: int, x: real, z: real)
    requires p == Truncate(a) * Truncate(b) && q == Magnitude(a).Floor * Magnitude(b).Floor && x == a * b
    requires z == Magnitude(a) * Magnitude(b)
    ensures (x == z && p == q) || (x == -z && p == -q)
  {
    SizedTruncate(a);
    SizedTruncate(b);
    SignsOfProduct(Magnitude(a), Magnitude(b));
    Signs(Magnitude(a).Floor, Magnitude(b).Floor);
  }

  /** A whole number too large to fit wraps to nothing as large. */
  lemma LargeWraps(p: int, x: real)
    requires !FitsInt64(p) && (p > 0 ==> x >= p as real) && (p < 0 ==> x <= p as real)
    ensures (Wrap64(p) as real) != x
  {
  }

  lemma ProductWraps(p: int, q: int, x: real, z: real)
    requires 0.0 <= q as real <= z && ((x == z && p == q) || (x == -z && p == -q))
    ensures (Wrap64(p) as real) == x <==> FitsInt64(p) && (q as real) == z
  {
    if !FitsInt64(p) { LargeWraps(p, x); }
  }

  lemma MulFoldIff(a: real, b: real, p: int, x: real)
    requires p == Truncate(a) * Truncate(b) && x == Times(a, b)
    ensures (Wrap64(p) as real) == x <==> RealsExact(Mul, a, b)
  {
    var q, z := Magnitude(a).Floor * Magnitude(b).Floor, Magnitude(a) * Magnitude(b);
    FloorProduct(Magnitude(a), Magnitude(b), q, z);
    SizedProduct(a, b, p, q, x, z);
    ProductWraps(p, q, x, z);
    SizedTruncate(a);
    SizedTruncate(b);
  }

  // Division.

  /** A whole quotient of non-negative numbers against the quotient of their floors. */
  lemma FloorQuotient(a: real, b: real, n: nat, lost: real)
    requires b >= 1.0 && a == (n as real) * b && lost == (n as real) * (b - (b.Floor as real))
    ensures n <= a.Floor / b.Floor <= 2 * n
    ensures a.Floor / b.Floor == n <==> lost < b.Floor as real
  {
    FloorOfMultiple(a, b, n, b.Floor, b - (b.Floor as real), lost);
    QuotientWithLoss(n, b.Floor, lost, a.Floor);
  }

  lemma QuotientWithLoss(n: nat, m: nat, lost: real, whole: int)
    requires m >= 1 && 0.0 <= lost <= n as real && whole == n * m + lost.Floor
    ensures n <= whole / m <= 2 * n
    ensures whole / m == n <==> lost < m as real
  {
    QuotientOfSum(n, m, lost.Floor);
  }

  lemma FloorOfMultiple(a: real, b: real, n: nat, m: nat, g: real, lost: real)
    requires 0.0 <= g < 1.0 && b == (m as real) + g && a == (n as real) * b && lost == (n as real) * g
    ensures 0.0 <= lost <= n as real
    ensures a.Floor == n * m + lost.Floor
  {
    Distributes(n as real, m as real, g);
    ProductBounds(n as real, g, lost);
    assert ((n * m) as real) == (n as real) * (m as real);
    FloorShifts(n * m, lost);
  }

  lemma FloorShifts(i: int, r: real)
    ensures ((i as real) + r).Floor == i + r.Floor
  {
  }

  lemma Distributes(n: real, m: real, g: real)
    ensures n * (m + g) == n * m + n * g
  {
  }

  lemma ProductBounds(n: real, g: real, lost: real)
    requires n >= 0.0 && 0.0 <= g < 1.0 && lost == n * g
    ensures 0.0 <= lost <= n
  {
    var rest := n * (1.0 - g);
    NonNegative(n, g, lost);
    NonNegative(n, 1.0 - g, rest);
    assert rest == n - lost;
  }

  lemma QuotientOfSum(n: nat, m: nat, h: nat)
    requires m >= 1
    ensures (n * m + h) / m == n + h / m && h / m <= h
    ensures h / m == 0 <==> h < m
  {
    var k, r := h / m, h % m;
    assert h == k * m + r;
    assert n * m + h == (n + k) * m + r by { assert (n + k) * m == n * m + k * m; }
    DivideExactly(n + k, m, r);
    StepsUp(0, k, m);
    StepsUp(1, m, k);
  }

  lemma DivideExactly(q: nat, m: nat, r: nat)
    requires r < m
    ensures (q * m + r) / m == q
  {
    var x := q * m + r;
    var k := x / m;
    assert x == k * m + x % m;
    StepsUp(k, q, m);
    StepsUp(q, k, m);
  }


  lemma DivFoldIff(a: real, b: real)
    requires b != 0.0
    ensures Truncate(b) != 0 && (Wrap64(Quot(Truncate(a), Truncate(b))) as real) == a / b <==> QuotientExact(a, b)
  {
    var q := a / b;
    if Truncate(b) != 0 && Integral(q) {
      SizedQuotient(a, b);
      NearQuotient(a, b);
    }
  }

  /** The quotient's size is the quotient of the sizes. */
  lemma SizedQuotient(a: real, b: real)
    requires b != 0.0
    ensures Magnitude(a / b) == Magnitude(a) / Magnitude(b) && Magnitude(a) == Magnitude(a / b) * Magnitude(b)
    ensures (a / b > 0.0 ==> (a > 0.0) == (b > 0.0)) && (a / b < 0.0 ==> (a > 0.0) != (b > 0.0))
    ensures (a / b == 0.0 ==> a == 0.0)
  {
  }

  /** A truncated quotient and a whole one of the same sign, at most twice its size. */
  lemma WrapsToQuotient(x: int, q: int, k: int, n: int)
    requires 0 <= n <= k <= 2 * n && ((x == k && q == n) || (x == -k && q == -n))
    ensures Wrap64(x) == q <==> FitsInt64(q) && k == n
  {
    if Wrap64(x) == q { NearWrap(x, q as real); }
  }

  lemma NearQuotient(a: real, b: real)
    requires Truncate(b) != 0 && b != 0.0 && Integral(a / b)
    ensures (Wrap64(Quot(Truncate(a), Truncate(b))) as real) == a / b <==> QuotientExact(a, b)
  {
    var n, k, lost := SizesDivided(a, b);
    FoldedQuotient(a, b, n, k);
    ExactByFloors(a, b, n, lost);
  }

  lemma SizesDivided(a: real, b: real) returns (n: int, k: int, lost: real)
    requires Truncate(b) != 0 && b != 0.0 && Integral(a / b)
    ensures Magnitude(a / b) == n as real && Magnitude(b).Floor != 0
    ensures k == Magnitude(a).Floor / Magnitude(b).Floor && 0 <= n <= k <= 2 * n
    ensures lost == Magnitude(a / b) * Magnitude(Frac(b)) && (k == n <==> lost < Magnitude(b).Floor as real)
  {
    n := WholeQuotient(a, b);
    lost := Magnitude(a / b) * Magnitude(Frac(b));
    LostFraction(b);
    k := SizesFloored(Magnitude(a), Magnitude(b), n, lost);
  }

  lemma SizesFloored(x: real, y: real, n: nat, lost: real) returns (k: int)
    requires y >= 1.0 && x == (n as real) * y && lost == (n as real) * (y - (y.Floor as real))
    ensures y.Floor != 0 && k == x.Floor / y.Floor && n <= k <= 2 * n
    ensures k == n <==> lost < y.Floor as real
  {
    k := x.Floor / y.Floor;
    FloorQuotient(x, y, n, lost);
  }

  lemma WholeQuotient(a: real, b: real) returns (n: int)
    requires Truncate(b) != 0 && b != 0.0 && Integral(a / b)
    ensures n >= 0 && Magnitude(a / b) == n as real && Magnitude(a) == (n as real) * Magnitude(b) && Magnitude(b) >= 1.0
  {
    SizedTruncate(a / b);
    SizedTruncate(b);
    SizedQuotient(a, b);
    n := Magnitude(a / b).Floor;
  }

  lemma LostFraction(b: real)
    ensures Magnitude(Frac(b)) == Magnitude(b) - (Magnitude(b).Floor as real)
    ensures Magnitude(Truncate(b) as real) == Magnitude(b).Floor as real
  {
    SizedTruncate(b);
  }

  lemma FoldedQuotient(a: real, b: real, n: int, k: int)
    requires Truncate(b) != 0 && b != 0.0 && Integral(a / b) && Magnitude(a / b) == n as real
    requires Magnitude(b).Floor != 0 && k == Magnitude(a).Floor / Magnitude(b).Floor && 0 <= n <= k <= 2 * n
    ensures (Wrap64(Quot(Truncate(a), Truncate(b))) as real) == a / b <==> FitsInt64((a / b).Floor) && k == n
  {
    QuotSigned(a, b, n, k);
    WrapsToQuotient(Quot(Truncate(a), Truncate(b)), (a / b).Floor, k, n);
  }

  lemma QuotSigned(a: real, b: real, n: int, k: int)
    requires Truncate(b) != 0 && b != 0.0 && Integral(a / b) && Magnitude(a / b) == n as real
    requires Magnitude(b).Floor != 0 && k == Magnitude(a).Floor / Magnitude(b).Floor && 0 <= n <= k <= 2 * n
    ensures Quot(Truncate(a), Truncate(b)) == if a / b < 0.0 then -k else k
    ensures (a / b).Floor == if a / b < 0.0 then -n else n
  {
    SizedTruncate(a);
    SizedTruncate(b);
    SizedQuotient(a, b);
  }

  lemma ExactByFloors(a: real, b: real, n: int, lost: real)
    requires b != 0.0 && Integral(a / b) && Magnitude(a / b) == n as real
    requires lost == Magnitude(a / b) * Magnitude(Frac(b))
    ensures QuotientExact(a, b) <==> FitsInt64((a / b).Floor) && lost < Magnitude(b).Floor as real
  {
    LostFraction(b);
  }

  // Any operation.

  /** Folding an operation gives CEL's value exactly under the condition on its operands. */
  lemma ArithFoldIff(op: ArithOp, a: Value, b: Value)
    ensures ArithFolds(op, a, b) <==> ArithExact(op, a, b)
  {
    if a.Int? && b.Int? {
      IntFoldIff(op, a.i, b.i);
    } else if a.Real? && b.Real? {
      RealFoldIff(op, a.r, b.r);
    }
  }

  lemma IntFoldIff(op: ArithOp, a: int, b: int)
    ensures ArithFolds(op, Int(a), Int(b)) <==> IntsExact(op, a, b)
  {
  }

  lemma RealFoldIff(op: ArithOp, a: real, b: real)
    ensures ArithFolds(op, Real(a), Real(b)) <==> RealsExact(op, a, b)
  {
    match op
    case Add =>
      FoldsToReal(op, a, b, Wrap64(Truncate(a) + Truncate(b)), a + b);
      AddFoldIff(a, b);
    case Sub =>
      FoldsToReal(op, a, b, Wrap64(Truncate(a) - Truncate(b)), a - b);
      SubFoldIff(a, b);
    case Mul => ProductFoldIff(a, b);
    case Div =>
      if b != 0.0 && Truncate(b) != 0 { FoldsToReal(op, a, b, Wrap64(Quot(Truncate(a), Truncate(b))), a / b); }
      if b != 0.0 { DivFoldIff(a, b); }
    case Mod =>
  }

  lemma ProductFoldIff(a: real, b: real)
    ensures ArithFolds(Mul, Real(a), Real(b)) <==> RealsExact(Mul, a, b)
  {
    var p, x := Truncate(a) * Truncate(b), Times(a, b);
    FoldsToReal(Mul, a, b, Wrap64(p), x);
    MulFoldIff(a, b, p, x);
  }

  lemma FoldsToReal(op: ArithOp, a: real, b: real, n: int, x: real)
    requires FoldArith(op, Truncate(a), Truncate(b)) == Ok(Some(n)) && CelArith(op, Real(a), Real(b)) == Some(Real(x))
    ensures ArithFolds(op, Real(a), Real(b)) <==> (n as real) == x
  {
  }

  // Whole expressions.

  /** The constant's value, and the number it folds to. */
  predicate Folds(e: Expr, ctx: Context) {
    && CelConst(e, ctx).Some? && FoldedTo(EvaluateNumeric(e, ctx), CelConst(e, ctx).value)
  }

  /** Literals aside, every operation is one that truncating its operands does not change. */
  predicate ExactArith(e: Expr, ctx: Context) {
    e.Call? && e.fn.ArithFn? ==>
      && |e.args| == 2 && ExactArith(e.args[0], ctx) && ExactArith(e.args[1], ctx)
      && CelConst(e.args[0], ctx).Some? && CelConst(e.args[1], ctx).Some?
      && ArithExact(e.fn.arith, CelConst(e.args[0], ctx).value, CelConst(e.args[1], ctx).value)
  }

  /** An operand folds to its truncated value. */
  predicate FoldsTruncated(e: Expr, ctx: Context) {
    && CelConst(e, ctx).Some? && Numeric(CelConst(e, ctx).value)
    && EvaluateNumeric(e, ctx) == Ok(Some(Truncated(CelConst(e, ctx).value)))
  }

  lemma WholeTruncates(n: int, v: Value)
    requires SameValue(Int(n), v)
    ensures Numeric(v) && Truncated(v) == n
  {
  }

  /** A constant folds to its own value, except that a bare literal is truncated. */
  lemma {:induction false} NumericFoldCorrect(e: Expr, ctx: Context)
    requires ExactArith(e, ctx) && EvaluateNumeric(e, ctx).Ok? && EvaluateNumeric(e, ctx).value.Some?
    ensures FoldsTruncated(e, ctx)
    ensures !e.Const? ==> Folds(e, ctx)
    decreases e
  {
    if e.Call? && e.fn.ArithFn? {
      NumericFoldCorrect(e.args[0], ctx);
      NumericFoldCorrect(e.args[1], ctx);
      OperationFolds(e, ctx);
    }
  }

  lemma OperationFolds(e: Expr, ctx: Context)
    requires e.Call? && e.fn.ArithFn? && |e.args| == 2
    requires FoldsTruncated(e.args[0], ctx) && FoldsTruncated(e.args[1], ctx)
    ensures Folds(e, ctx) <==> ArithExact(e.fn.arith, CelConst(e.args[0], ctx).value, CelConst(e.args[1], ctx).value)
    ensures Folds(e, ctx) ==> FoldsTruncated(e, ctx)
  {
    ArithFoldIff(e.fn.arith, CelConst(e.args[0], ctx).value, CelConst(e.args[1], ctx).value);
    if Folds(e, ctx) { WholeTruncates(EvaluateNumeric(e, ctx).value.value, CelConst(e, ctx).value); }
  }

  /** Both operands are numbers folding computes, and exact themselves. */
  predicate ExactOperands(e: Expr, ctx: Context) {
    && e.Call? && e.fn.ArithFn? && |e.args| == 2
    && (forall i :: 0 <= i < 2 ==>
          && ExactArith(e.args[i], ctx) && CelConst(e.args[i], ctx).Some?
          && EvaluateNumeric(e.args[i], ctx).Ok? && EvaluateNumeric(e.args[i], ctx).value.Some?)
  }

  /** An operation over exact operands folds to CEL's value exactly when it is exact itself. */
  lemma ArithmeticFoldsIff(e: Expr, ctx: Context)
    requires ExactOperands(e, ctx)
    ensures Folds(e, ctx) <==> ExactArith(e, ctx)
  {
    NumericFoldCorrect(e.args[0], ctx);
    NumericFoldCorrect(e.args[1], ctx);
    OperationFolds(e, ctx);
  }

  /** `1.5 + 1.5` is 3.0 in CEL and folds to 2; `2.0 + 1.0` folds to CEL's value. */
  lemma FractionalArithmeticFoldsWrong(ctx: Context)
    ensures var e := Call(ArithFn(Add), None, [Const(Real(1.5)), Const(Real(1.5))]);
      CelConst(e, ctx) == Some(Real(3.0)) && EvaluateNumeric(e, ctx) == Ok(Some(2)) && !ExactArith(e, ctx)
    ensures ExactArith(Call(ArithFn(Add), None, [Const(Real(2.0)), Const(Real(1.0))]), ctx)
  {
  }


  lemma {:induction false} BoolFoldCorrect(e: Expr, ctx: Context)
    requires EvaluateBool(e).Ok? && EvaluateBool(e).value.Some?
    ensures CelConst(e, ctx) == Some(Bool(EvaluateBool(e).value.value))
    decreases e
  {
    if e.Call? {
      BoolFoldCorrect(e.args[0], ctx);
    }
  }

  // Comparing two literals goes through floats.

  /** Widening `i` carries it across no threshold the comparison with `r` has. */
  predicate MixedHarmless(op: CompareOp, i: int, r: real) {
    var x, f := i as real, ToFloat(i) as real;
    var lo, hi := if x < f then x else f, if x < f then f else x;
    || x == f
    || (match op
        case Eq => r != x && r != f
        case Neq => r != x && r != f
        case Lt => !(lo < r <= hi)
        case Gte => !(lo < r <= hi)
        case Lte => !(lo <= r < hi)
        case Gt => !(lo <= r < hi))
  }

  predicate LiteralsSafe(u: Value, op: CompareOp, v: Value) {
    match (u, v)
    case (Int(i), Int(j)) => WideningHarmless(op, i, j)
    case (Int(i), Real(r)) => MixedHarmless(op, i, r)
    case (Real(r), Int(i)) => MixedHarmless(Mirror(op), i, r)
    case _ => true
  }

  lemma MixedComparisonIff(op: CompareOp, i: int, r: real)
    ensures CompareReals(op, ToFloat(i) as real, r) == CompareReals(op, i as real, r) <==> MixedHarmless(op, i, r)
    ensures CompareReals(op, r, ToFloat(i) as real) == CompareReals(op, r, i as real)
       <==> MixedHarmless(Mirror(op), i, r)
  {
  }

  /** Folding the comparison of two literals keeps its value exactly under that condition; within 2^53 it holds. */
  lemma LiteralsCorrectIff(u: Value, op: CompareOp, v: Value)
    requires CompareLiterals(u, op, v).Ok?
    ensures Tri2(CompareLiterals(u, op, v).value) == Compare(op, u, v) <==> LiteralsSafe(u, op, v)
  {
    match (u, v)
    case (Int(i), Int(j)) => WidenedComparisonIff(op, i, j);
    case (Int(i), Real(r)) => MixedComparisonIff(op, i, r);
    case (Real(r), Int(i)) => MixedComparisonIff(op, i, r);
    case _ =>
  }

  lemma SmallLiteralsSafe(u: Value, op: CompareOp, v: Value)
    requires u.Int? ==> Abs(u.i) <= PRECISION
    requires v.Int? ==> Abs(v.i) <= PRECISION
    ensures LiteralsSafe(u, op, v)
  {
    if u.Int? { SmallIntegersExact(u.i); }
    if v.Int? { SmallIntegersExact(v.i); }
  }
}
