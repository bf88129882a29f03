/** What the binary and unary operators promise (`eval/reduce.rs`), stated against each other and
    against ordinary arithmetic. */
module Operators {
  import opened Ir
  import opened Reducer
  import opened Sorting

  /** Integer addition, subtraction and multiplication never wrap: they give the mathematical result or
      nothing, and subtraction takes an addition back. */
  lemma IntegersNeverWrap(a: i64, b: i64, fl: Floats)
    ensures EvalBinary(Add, Int(a), Int(b), fl) == (if InI64(a + b) then Some(Int(a + b)) else None)
    ensures EvalBinary(Sub, Int(a), Int(b), fl) == (if InI64(a - b) then Some(Int(a - b)) else None)
    ensures EvalBinary(Mul, Int(a), Int(b), fl) == (if InI64(a * b) then Some(Int(a * b)) else None)
    ensures EvalUnary(Neg, Int(b), fl) == EvalBinary(Sub, Int(0), Int(b), fl)
    ensures EvalBinary(Add, Int(a), Int(b), fl).Some? ==>
              EvalBinary(Sub, EvalBinary(Add, Int(a), Int(b), fl).value, Int(b), fl) == Some(Int(a))
  {
  }

  function Abs(n: int): nat {
    if n < 0 then 0 - n else n
  }

  /** The remainder is smaller than the divisor and has the dividend's sign. */
  predicate TruncatedQuotient(a: int, b: int, q: int) {
    var r := a - q * b;
    Abs(r) < Abs(b) && (a >= 0 ==> r >= 0) && (a <= 0 ==> r <= 0)
  }

  /** Truncated division: the remainder has the sign of the dividend and is smaller than the divisor. */
  lemma TruncatedDivision(a: int, b: int)
    requires b != 0
    ensures TruncatedQuotient(a, b, TruncDiv(a, b))
    ensures Abs(TruncDiv(a, b)) <= Abs(a)
    ensures Abs(TruncDiv(a, b)) == Abs(a) <==> a == 0 || b == 1 || b == -1
  {
    var q := Abs(a) / b;
    Quotient(Abs(a), b);
    QuotientSize(Abs(a), b, q);
    NegatedProduct(q, b);
    TruncatedSign(a, b, q, q * b, TruncDiv(a, b) * b);
  }

  lemma ModBounds(x: int, y: int)
    requires y != 0
    ensures 0 <= x % y < Abs(y)
  {
    if y < 0 {
      assert x % y == x % (0 - y);
    }
  }

  lemma Quotient(n: nat, b: int)
    requires b != 0
    ensures 0 <= n - (n / b) * b < Abs(b)
  {
    assert n == (n / b) * b + n % b;
    ModBounds(n, b);
  }

  lemma TruncatedSign(a: int, b: int, q: int, qb: int, tb: int)
    requires 0 <= Abs(a) - qb < Abs(b) && (a == 0 ==> qb == 0) && tb == (if a >= 0 then qb else 0 - qb)
    ensures Abs(a - tb) < Abs(b) && (a >= 0 ==> a - tb >= 0) && (a <= 0 ==> a - tb <= 0)
  {
  }

  lemma NegatedProduct(x: int, y: int)
    ensures (0 - x) * y == 0 - x * y && x * (0 - y) == 0 - x * y && (0 - x) * (0 - y) == x * y
  {
  }

  lemma QuotientSize(n: nat, b: int, q: int)
    requires b != 0 && 0 <= n - q * b < Abs(b)
    ensures Abs(q) <= n
    ensures Abs(q) == n <==> n == 0 || b == 1 || b == -1
  {
    if b > 0 {
      PositiveQuotient(n, b, q);
    } else {
      NegatedProduct(q, b);
      PositiveQuotient(n, 0 - b, 0 - q);
    }
  }

  lemma PositiveQuotient(n: nat, b: nat, q: int)
    requires b > 0 && 0 <= n - q * b < b
    ensures 0 <= q <= n
    ensures q == n <==> n == 0 || b == 1
  {
    assert q < 0 ==> q * b <= (0 - 1) * b;
    assert q > 0 ==> q * b >= q;
    assert q > 0 && b > 1 ==> q * b >= q * 2;
  }

  /** `/` on integers truncates toward zero; the one quotient that does not fit an `i64` is left to the
      floats. */
  lemma DivisionTruncates(a: i64, b: i64, fl: Floats)
    requires b != 0
    ensures InI64(TruncDiv(a, b)) <==> !(a == I64_MIN && b == -1)
    ensures InI64(TruncDiv(a, b)) ==> EvalBinary(Div, Int(a), Int(b), fl) == Some(Int(TruncDiv(a, b)))
    ensures a == I64_MIN && b == -1 && !fl.isZero(fl.ofInt(b)) ==>
              EvalBinary(Div, Int(a), Int(b), fl) == Some(Number(fl.arith(Div, fl.ofInt(a), fl.ofInt(b))))
  {
    TruncatedDivision(a, b);
    assert InI64(a);
    assert b == -1 ==> TruncDiv(a, b) == 0 - a as int by { TruncatedDivision(a, -1); }
    assert b == 1 ==> TruncDiv(a, b) == a as int;
    assert Abs(a) <= I64_MAX + 1 && (a != I64_MIN ==> Abs(a) <= I64_MAX);
    if b != 1 && b != -1 {
      assert Abs(TruncDiv(a, b)) <= I64_MAX;
    }
  }

  /** `%` on integers is the Euclidean remainder: never negative, below the divisor's magnitude, and
      congruent to the dividend. */
  lemma RemainderIsEuclidean(a: i64, b: i64, fl: Floats)
    requires b != 0 && !(a == I64_MIN && b == -1)
    ensures var r := EvalBinary(Mod, Int(a), Int(b), fl);
            r.Some? && r.value.Int? && 0 <= r.value.n < Abs(b) && a as int == (a as int / b as int) * b as int + r.value.n as int
  {
    var x: int, y: int := a, b;
    assert x == (x / y) * y + x % y;
    ModBounds(x, y);
    assert InI64(x) && InI64(y);
    assert InI64(x % y);
  }

  lemma QuotientUnique(a: int, b: int, p: int, q: int)
    requires TruncatedQuotient(a, b, p) && TruncatedQuotient(a, b, q)
    ensures p == q
  {
    assert p * b - q * b == (p - q) * b;
    assert Abs((p - q) * b) < Abs(b);
    SmallMultiple(p - q, b);
  }

  lemma NoZeroQuotient(a: int, q: int)
    ensures !TruncatedQuotient(a, 0, q)
  {
  }

  lemma SmallMultiple(d: int, b: int)
    requires Abs(d * b) < Abs(b)
    ensures d == 0
  {
    NegatedProduct(d, b);
    if d > 0 {
      LargeMultiple(d, Abs(b));
    } else if d < 0 {
      LargeMultiple(0 - d, Abs(b));
    }
  }

  lemma LargeMultiple(d: nat, b: nat)
    requires d > 0
    ensures d * b >= b
  {
  }

  /** `/` on integers answers with the integer `q` exactly when `q` is the quotient whose remainder is
      smaller than the divisor and has the dividend's sign. Off the one pair that overflows, it gives
      nothing exactly for a zero divisor. */
  lemma DivisionIsExact(a: i64, b: i64, q: i64, fl: Floats)
    ensures EvalBinary(Div, Int(a), Int(b), fl) == Some(Int(q)) <==> TruncatedQuotient(a, b, q)
    ensures !(a == I64_MIN && b == -1) ==> (EvalBinary(Div, Int(a), Int(b), fl) == None <==> b == 0)
  {
    NoZeroQuotient(a, q);
    hide TruncDiv, TruncatedQuotient;
    if b != 0 {
      TruncatedDivision(a, b);
      DivisionTruncates(a, b, fl);
      if TruncatedQuotient(a, b, q) { QuotientUnique(a, b, TruncDiv(a, b), q); }
    }
  }

  function Times(q: int, b: int): int {
    q * b
  }

  /** `%` on integers answers exactly with the residue of the dividend below the divisor's magnitude,
      and with nothing for a zero divisor and the one pair whose quotient overflows. */
  lemma RemainderIsExact(a: i64, b: i64, r: i64, fl: Floats)
    ensures EvalBinary(Mod, Int(a), Int(b), fl) == Some(Int(r)) <==>
              !(a == I64_MIN && b == -1) && 0 <= r < Abs(b) && exists q :: a as int == Times(q, b) + r as int
    ensures EvalBinary(Mod, Int(a), Int(b), fl) == None <==> b == 0 || (a == I64_MIN && b == -1)
  {
    if b != 0 && !(a == I64_MIN && b == -1) {
      RemainderIsEuclidean(a, b, fl);
      var p, s := a as int / b as int, EvalBinary(Mod, Int(a), Int(b), fl).value.n;
      assert a as int == Times(p, b) + s as int;
      if 0 <= r < Abs(b) && exists q :: a as int == Times(q, b) + r as int {
        var q :| a as int == Times(q, b) + r as int;
        assert p * b - q * b == (p - q) * b;
        SmallMultiple(p - q, b);
      }
    }
  }

  predicate Ordered(a: Value, b: Value) {
    (a.Int? && b.Int?) || (a.Str? && b.Str?)
  }

  predicate Holds(op: BinaryOp, a: Value, b: Value, fl: Floats) {
    EvalBinary(op, a, b, fl) == Some(Bool(true))
  }

  /** On two integers or two strings the six comparisons always answer, exactly one of `<`, `==`, `>`
      holds, and the others follow from these. */
  lemma ComparisonsAgree(a: Value, b: Value, fl: Floats)
    requires Ordered(a, b)
    ensures forall op | op in {Lt, Le, Gt, Ge, Eq, Ne} :: EvalBinary(op, a, b, fl).Some? && EvalBinary(op, a, b, fl).value.Bool?
    ensures Holds(Eq, a, b, fl) <==> a == b
    ensures Holds(Ne, a, b, fl) <==> a != b
    ensures Holds(Lt, a, b, fl) <==> Holds(Gt, b, a, fl)
    ensures Holds(Le, a, b, fl) <==> Holds(Lt, a, b, fl) || a == b
    ensures Holds(Ge, a, b, fl) <==> !Holds(Lt, a, b, fl)
    ensures Holds(Gt, a, b, fl) <==> !Holds(Le, a, b, fl)
    ensures a.Int? ==> (Holds(Lt, a, b, fl) <==> a.n < b.n)
  {
    if a.Str? { StringsFlip(a.s, b.s); }
  }

  /** `<` is transitive on integers and on strings. */
  lemma LessIsTransitive(a: Value, b: Value, c: Value, fl: Floats)
    requires Ordered(a, b) && Ordered(b, c) && Holds(Lt, a, b, fl) && Holds(Lt, b, c, fl)
    ensures Holds(Lt, a, c, fl)
  {
    if a.Str? { StringsTransitive(a.s, b.s, c.s); }
  }

  /** The logical operators obey De Morgan's law and take nothing but booleans. */
  lemma LogicIsBoolean(a: Value, b: Value, fl: Floats)
    ensures EvalBinary(And, a, b, fl).Some? <==> a.Bool? && b.Bool?
    ensures EvalBinary(Or, a, b, fl).Some? <==> a.Bool? && b.Bool?
    ensures EvalUnary(Not, a, fl).Some? <==> a.Bool?
    ensures a.Bool? && b.Bool? ==>
              EvalUnary(Not, EvalBinary(And, a, b, fl).value, fl) ==
              EvalBinary(Or, EvalUnary(Not, a, fl).value, EvalUnary(Not, b, fl).value, fl)
    ensures a.Bool? ==> EvalBinary(And, a, Bool(true), fl) == Some(a) && EvalBinary(Or, a, Bool(false), fl) == Some(a)
  {
  }
}
