/** Widening an integer to a 53-bit float, as Go's `float64(x)` does, and when comparing the results is sound. */
module Float53 {
  import opened FilterIr

  const PRECISION: nat := 0x20_0000_0000_0000

  /** Smallest power of two, from `u` on, that spaces the floats around `n`. */
  function Spacing(n: nat, u: nat): (v: nat)
    requires u >= 1
    ensures v >= u && n <= PRECISION * v
    ensures v == u || (v % 2 == 0 && v / 2 >= u && n > PRECISION * (v / 2))
    decreases n - u
  {
    if n <= PRECISION * u then u else Spacing(n, 2 * u)
  }

  /** Nearest multiple of `u`, ties to even. */
  function RoundTo(n: nat, u: nat): nat
    requires u >= 1
  {
    var q, r := n / u, n % u;
    if 2 * r < u || (2 * r == u && q % 2 == 0) then q * u else (q + 1) * u
  }

  function Widen(n: nat): nat { RoundTo(n, Spacing(n, 1)) }

  function ToFloat(i: int): int { if i >= 0 then Widen(i) else 0 - Widen(-i) }

  lemma StepsUp(a: nat, b: nat, u: nat)
    ensures a < b ==> (a + 1) * u <= b * u
  {
  }

  lemma RoundAbove(n: nat, u: nat, c: nat)
    requires u >= 1 && n >= c * u
    ensures RoundTo(n, u) >= c * u
  {
    var q, r := n / u, n % u;
    assert n == q * u + r;
    StepsUp(q, c, u);
    assert q >= c;
    assert q * u >= c * u && (q + 1) * u >= c * u;
  }

  lemma RoundBelow(n: nat, u: nat, c: nat)
    requires u >= 1 && n <= c * u
    ensures RoundTo(n, u) <= c * u
  {
    var q, r := n / u, n % u;
    assert n == q * u + r;
    if q >= c {
      assert q * u >= c * u;
      assert r == 0;
    } else {
      assert (q + 1) * u <= c * u;
    }
  }

  lemma RoundMonotone(m: nat, n: nat, u: nat)
    requires u >= 1 && m <= n
    ensures RoundTo(m, u) <= RoundTo(n, u)
  {
    var qm, qn := m / u, n / u;
    DivMonotone(m, n, u);
    if qm < qn {
      StepsUp(qm, qn, u);
      assert m == qm * u + m % u && n == qn * u + n % u;
      assert m <= (qm + 1) * u;
      RoundBelow(m, u, qm + 1);
      RoundAbove(n, u, qn);
    }
  }

  lemma DivMonotone(m: nat, n: nat, u: nat)
    requires u >= 1 && m <= n
    ensures m / u <= n / u
    ensures m / u == n / u ==> m % u <= n % u
  {
    StepsUp(n / u, m / u, u);
    assert m == (m / u) * u + m % u && n == (n / u) * u + n % u;
  }

  lemma WidenMonotone(m: nat, n: nat)
    requires m <= n
    ensures Widen(m) <= Widen(n)
  {
    var u, v := Spacing(m, 1), Spacing(n, 1);
    if u == v {
      RoundMonotone(m, n, u);
    } else if u < v {
      // v is even and n lies above the last value of the coarser spacing below it
      var half := v / 2;
      SpacingDoubles(m, n);
      assert PRECISION * half == (PRECISION / 2) * v;
      RoundBelow(m, u, PRECISION);
      RoundAbove(n, v, PRECISION / 2);
      assert PRECISION * u <= PRECISION * half;
    } else {
      SpacingDoubles(n, m);
      assert false;
    }
  }

  /** Two spacings that differ, differ by at least a factor of two. */
  lemma SpacingDoubles(m: nat, n: nat)
    requires Spacing(m, 1) < Spacing(n, 1)
    ensures Spacing(m, 1) <= Spacing(n, 1) / 2
  {
    SpacingReaches(m, n, 1);
  }

  lemma {:induction false} SpacingReaches(m: nat, n: nat, u: nat)
    requires u >= 1 && Spacing(m, u) < Spacing(n, u)
    ensures Spacing(m, u) <= Spacing(n, u) / 2
    decreases n - u
  {
    if m > PRECISION * u && n > PRECISION * u {
      SpacingReaches(m, n, 2 * u);
    }
  }

  lemma ToFloatMonotone(a: int, b: int)
    requires a <= b
    ensures ToFloat(a) <= ToFloat(b)
  {
    if a >= 0 {
      WidenMonotone(a, b);
    } else if b < 0 {
      WidenMonotone(-b, -a);
    }
  }

  /** Integers within 2^53 widen exactly. */
  lemma SmallIntegersExact(i: int)
    requires -(PRECISION as int) <= i <= PRECISION
    ensures ToFloat(i) == i
  {
  }

  predicate CompareInts(op: CompareOp, a: int, b: int) { CompareReals(op, a as real, b as real) }

  /** When comparing the widened values answers the integer comparison. */
  predicate WideningHarmless(op: CompareOp, a: int, b: int) {
    || a == b
    || ToFloat(a) != ToFloat(b)
    || (match op
        case Eq => false
        case Neq => false
        case Lt => a > b
        case Gte => a > b
        case Gt => a < b
        case Lte => a < b)
  }

  lemma WidenedComparisonIff(op: CompareOp, a: int, b: int)
    ensures CompareInts(op, ToFloat(a), ToFloat(b)) == CompareInts(op, a, b) <==> WideningHarmless(op, a, b)
  {
    if a <= b { ToFloatMonotone(a, b); } else { ToFloatMonotone(b, a); }
  }

  /** Past 2^53 distinct integers collide. */
  lemma LargeIntegersCollide()
    ensures ToFloat(PRECISION + 1) == ToFloat(PRECISION)
    ensures !WideningHarmless(Eq, PRECISION, PRECISION + 1)
  {
  }

  /** `f` is the multiple `q` of the spacing `u` nearest to `n`, the even one of two that are equally near. */
  predicate IsNearest(n: nat, u: nat, q: nat, f: nat) {
    f == q * u && 2 * n <= 2 * f + u && 2 * f <= 2 * n + u && (2 * (n - f) == u || 2 * (f - n) == u ==> q % 2 == 0)
  }

  lemma RoundsToNearest(n: nat, u: nat) returns (q: nat)
    requires u >= 1
    ensures IsNearest(n, u, q, RoundTo(n, u))
  {
    q := n / u;
    assert n == q * u + n % u;
    if RoundTo(n, u) != q * u {
      assert (q + 1) * u == q * u + u;
      q := q + 1;
    }
  }

  /** A widened integer is the nearest float: a multiple of the least spacing at which 53 bits reach it. */
  lemma WidensToNearest(n: nat) returns (u: nat, q: nat)
    ensures u >= 1 && n <= 0x20_0000_0000_0000 * u && (u > 1 ==> u % 2 == 0 && n > 0x20_0000_0000_0000 * (u / 2))
    ensures IsNearest(n, u, q, Widen(n)) && ToFloat(n) == Widen(n) && ToFloat(0 - n) + Widen(n) == 0
  {
    u := Spacing(n, 1);
    q := RoundsToNearest(n, u);
  }
}
