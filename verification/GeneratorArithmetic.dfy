/** The integer arithmetic the code generator emits where the target has no single instruction
    (Talac/Backend/LLVM/GeneratorArithmetic.cpp), over bit patterns of any width. */
module GeneratorArithmetic {
  import opened Wrappers

  // ---------------------------------------------------------------------------
  // Patterns

  function Pow(b: int, e: nat): int {
    if e == 0 then 1 else b * Pow(b, e - 1)
  }

  /** How many patterns there are of a width. */
  function Patterns(width: nat): (m: int)
    ensures m > 0
  {
    if width == 0 then 1 else 2 * Patterns(width - 1)
  }

  /** The pattern an integer wraps to. */
  function Wrap(width: nat, x: int): (p: nat)
    ensures p < Patterns(width)
  {
    x % Patterns(width)
  }

  predicate Negative(width: nat, p: nat)
    requires width > 0
  {
    p >= Patterns(width - 1)
  }

  /** The integer a pattern stands for when it is read as signed. */
  function Signed(width: nat, p: nat): int
    requires width > 0
  {
    if Negative(width, p) then p - Patterns(width) else p
  }

  function Least(width: nat): nat
    requires width > 0
  {
    Patterns(width - 1)
  }

  function MinusOne(width: nat): nat {
    Patterns(width) - 1
  }

  lemma WrapSigned(width: nat, p: nat)
    requires width > 0 && p < Patterns(width)
    ensures Wrap(width, Signed(width, p)) == p
    ensures -Patterns(width - 1) <= Signed(width, p) < Patterns(width - 1)
  {
    WrapShifted(width, p, -1);
  }

  /** A whole number of turns does not change a pattern. */
  lemma {:induction false} ModShift(x: int, m: int, k: int)
    requires m > 0
    ensures (x + k * m) % m == x % m
    decreases if k < 0 then -k else k
  {
    if k > 0 {
      ModShift(x, m, k - 1);
      assert x + k * m == (x + (k - 1) * m) + m;
      AddTurn(x + (k - 1) * m, m);
    } else if k < 0 {
      ModShift(x, m, k + 1);
      assert x + (k + 1) * m == (x + k * m) + m;
      AddTurn(x + k * m, m);
    } else {
      assert k * m == 0;
    }
  }

  lemma AddTurn(x: int, m: int)
    requires m > 0
    ensures (x + m) % m == x % m
  {
    var q, r := x / m, x % m;
    assert x + m == (q + 1) * m + r;
    DivisionIsUnique(x + m, m, q + 1, r);
  }

  lemma DivisionIsUnique(x: int, m: int, q: int, r: int)
    requires m > 0 && x == q * m + r && 0 <= r < m
    ensures x / m == q && x % m == r
  {
    var k := x / m - q;
    assert k * m == r - x % m;
    if k != 0 {
      MultipleIsLarge(k, m);
    }
  }

  lemma {:induction false} AtLeastOnce(k: int, b: int)
    requires k >= 1 && b >= 0
    ensures k * b >= b
    decreases k
  {
    if k > 1 {
      AtLeastOnce(k - 1, b);
      assert k * b == (k - 1) * b + b;
    }
  }

  lemma MultipleIsLarge(k: int, b: int)
    requires k != 0
    ensures Abs(k * b) >= Abs(b)
  {
    AtLeastOnce(Abs(k), Abs(b));
    SignsOfProduct(k, b);
  }

  lemma SignsOfProduct(k: int, b: int)
    ensures Abs(k) * Abs(b) == Abs(k * b)
  {
    if k >= 0 {
      Product(k, Abs(b));
      if b < 0 {
        assert k * -b == -(k * b);
      }
    } else {
      Product(-k, Abs(b));
      if b < 0 {
        assert -k * -b == k * b;
      } else {
        assert -k * b == -(k * b);
      }
    }
  }

  lemma Product(k: int, b: int)
    requires k >= 0 && b >= 0
    ensures k * b >= 0
  {
  }

  lemma WrapShifted(width: nat, x: int, k: int)
    ensures Wrap(width, x + k * Patterns(width)) == Wrap(width, x)
    ensures 0 <= x < Patterns(width) ==> Wrap(width, x) == x
  {
    ModShift(x, Patterns(width), k);
    if 0 <= x < Patterns(width) {
      DivisionIsUnique(x, Patterns(width), 0, x);
    }
  }

  // ---------------------------------------------------------------------------
  // Instructions

  function Add(width: nat, a: nat, b: nat): nat {
    Wrap(width, a + b)
  }

  function Mul(width: nat, a: nat, b: nat): nat {
    Wrap(width, a * b)
  }

  function Neg(width: nat, a: nat): nat {
    Wrap(width, 0 - a)
  }

  /** Logical shift right by one and the lowest bit. */
  function ShiftRightOne(a: nat): nat {
    a / 2
  }

  function LowBit(a: nat): nat {
    a % 2
  }

  function Xor(width: nat, a: nat, b: nat): nat {
    if width == 0 then 0
    else 2 * Xor(width - 1, a / 2, b / 2) + if a % 2 == b % 2 then 0 else 1
  }

  function Abs(x: int): (r: int)
    ensures r >= 0
  {
    if x < 0 then -x else x
  }

  function TruncDiv(a: int, b: int): int
    requires b != 0
  {
    if (a < 0) == (b < 0) then Abs(a) / Abs(b) else -(Abs(a) / Abs(b))
  }

  function TruncRem(a: int, b: int): int
    requires b != 0
  {
    if a < 0 then -(Abs(a) % Abs(b)) else Abs(a) % Abs(b)
  }

  /** Signed division has no meaning by zero, or when its quotient does not fit. */
  predicate SignedDivides(width: nat, a: nat, b: nat)
    requires width > 0
  {
    Signed(width, b) != 0 && !(a == Least(width) && Signed(width, b) == -1)
  }

  function SDiv(width: nat, a: nat, b: nat): nat
    requires width > 0 && SignedDivides(width, a, b)
  {
    Wrap(width, TruncDiv(Signed(width, a), Signed(width, b)))
  }

  function SRem(width: nat, a: nat, b: nat): nat
    requires width > 0 && SignedDivides(width, a, b)
  {
    Wrap(width, TruncRem(Signed(width, a), Signed(width, b)))
  }

  // ---------------------------------------------------------------------------
  // The emitted code

  /** The divisor a division is carried out with; no result means the program stops. */
  function ComputableDivisor(width: nat, dividend: nat, divisor: nat, isSigned: bool): Option<nat>
    requires width > 0
  {
    if divisor == 0 then None
    else if isSigned && dividend == Least(width) && divisor == MinusOne(width) then Some(1)
    else Some(divisor)
  }

  function Magnitude(width: nat, p: nat): nat
    requires width > 0
  {
    if Signed(width, p) < 0 then Neg(width, p) else p
  }

  function LowerSignedRoundedDiv(width: nat, left: nat, right: nat): nat
    requires width > 0 && SignedDivides(width, left, right)
  {
    var quotient := SDiv(width, left, right);
    var remainder := SRem(width, left, right);
    var remainderMagnitude := Magnitude(width, remainder);
    var divisorMagnitude := Magnitude(width, right);
    var threshold := Add(width, ShiftRightOne(divisorMagnitude), LowBit(divisorMagnitude));
    var signBits := Xor(width, left, right);
    var direction := if Signed(width, signBits) >= 0 then 1 else MinusOne(width);
    if remainderMagnitude >= threshold then Add(width, quotient, direction) else quotient
  }

  function LowerUnsignedRoundedDiv(width: nat, left: nat, right: nat): nat
    requires right != 0
  {
    var quotient := left / right;
    var remainder := left % right;
    var threshold := Add(width, ShiftRightOne(right), LowBit(right));
    if remainder >= threshold then Add(width, quotient, 1) else quotient
  }

  /** The emitted power function: square and multiply on patterns. */
  method Power(width: nat, base: nat, exponent: nat) returns (result: nat)
    requires width > 0 && base < Patterns(width) && exponent < Patterns(width)
    ensures result == Wrap(width, Pow(base, exponent))
  {
    hide Pow, Patterns, Wrap, Mul;
    var factor: nat, remaining: nat := base, exponent;
    result := 1;
    PowerStarts(width, base, exponent);
    while remaining != 0
      invariant Wrap(width, result * Pow(factor, remaining)) == Wrap(width, Pow(base, exponent))
      invariant result < Patterns(width)
    {
      PowerRound(width, result, factor, remaining);
      if LowBit(remaining) != 0 {
        result := Mul(width, result, factor);
      }
      factor := Mul(width, factor, factor);
      remaining := ShiftRightOne(remaining);
    }
    PowerEnds(width, result, factor);
  }

  // ---------------------------------------------------------------------------
  // Rounding

  /** q is the integer nearest to a / b; of two nearest ones, the one away from zero. */
  ghost predicate IsNearest(a: int, b: int, q: int) {
    && 2 * Abs(a - q * b) <= Abs(b)
    && (2 * Abs(a - q * b) == Abs(b) ==> Abs(q * b) > Abs(a))
  }

  /** Rounding a magnitude up exactly when twice the remainder reaches the divisor. */
  function Nearest(n: int, d: int): (q: int)
    requires n >= 0 && d > 0
  {
    if 2 * (n % d) >= d then n / d + 1 else n / d
  }

  lemma NearestMagnitude(n: nat, d: nat)
    requires d > 0
    ensures IsNearest(n, d, Nearest(n, d))
  {
    var k, r := n / d, n % d;
    assert n == k * d + r;
    assert (k + 1) * d == k * d + d;
  }

  /** Only one integer is nearest. */
  lemma NearestIsUnique(a: int, b: int, p: int, q: int)
    requires b != 0 && IsNearest(a, b, p) && IsNearest(a, b, q)
    ensures p == q
  {
    Difference(p, q, b);
    if p != q {
      MultipleIsLarge(q - p, b);
    }
    if p != 0 {
      MultipleIsLarge(p, b);
    }
    if q != 0 {
      MultipleIsLarge(q, b);
    }
    NearestMultiplesAgree(a, b, p * b, q * b);
  }

  lemma Difference(p: int, q: int, b: int)
    ensures (q - p) * b == q * b - p * b
  {
  }

  /** Multiples of b that are equal or at least |b| apart cannot both be nearest unless equal. */
  lemma NearestMultiplesAgree(a: int, b: int, pb: int, qb: int)
    requires b != 0 && (pb == qb || Abs(qb - pb) >= Abs(b))
    requires (pb == 0 || Abs(pb) >= Abs(b)) && (qb == 0 || Abs(qb) >= Abs(b))
    requires 2 * Abs(a - pb) <= Abs(b) && (2 * Abs(a - pb) == Abs(b) ==> Abs(pb) > Abs(a))
    requires 2 * Abs(a - qb) <= Abs(b) && (2 * Abs(a - qb) == Abs(b) ==> Abs(qb) > Abs(a))
    ensures pb == qb
  {
  }

  /** Signs move out of a rounded quotient. */
  lemma NearestSigned(a: int, b: int)
    requires b != 0
    ensures IsNearest(a, b, if (a < 0) == (b < 0) then Nearest(Abs(a), Abs(b)) else -Nearest(Abs(a), Abs(b)))
  {
    var m := Nearest(Abs(a), Abs(b));
    NearestMagnitude(Abs(a), Abs(b));
    hide Nearest;
    SignedProduct(a, b, m);
    AbsorbSigns(a, b, m * Abs(b), (if (a < 0) == (b < 0) then m else -m) * b);
  }

  lemma SignedProduct(a: int, b: int, m: int)
    ensures (if (a < 0) == (b < 0) then m else -m) * b == if a < 0 then -(m * Abs(b)) else m * Abs(b)
  {
    assert m * -b == -(m * b) && -m * b == -(m * b) && -m * -b == m * b;
  }

  lemma AbsorbSigns(a: int, b: int, t: int, qb: int)
    requires 2 * Abs(Abs(a) - t) <= Abs(b) && (2 * Abs(Abs(a) - t) == Abs(b) ==> Abs(t) > Abs(a))
    requires qb == if a < 0 then -t else t
    ensures 2 * Abs(a - qb) <= Abs(b) && (2 * Abs(a - qb) == Abs(b) ==> Abs(qb) > Abs(a))
  {
  }

  lemma Threshold(d: nat, r: nat)
    ensures r >= d / 2 + d % 2 <==> 2 * r >= d
  {
  }

  lemma {:induction false} XorSigns(width: nat, a: nat, b: nat)
    requires width > 0 && a < Patterns(width) && b < Patterns(width)
    ensures Xor(width, a, b) < Patterns(width)
    ensures Xor(width, a, b) >= Patterns(width - 1) <==> (a >= Patterns(width - 1)) != (b >= Patterns(width - 1))
  {
    if width == 1 {
      assert Xor(0, a / 2, b / 2) == 0;
    } else {
      XorSigns(width - 1, a / 2, b / 2);
    }
  }

  lemma MagnitudeIsAbs(width: nat, p: nat)
    requires width > 0 && p < Patterns(width)
    ensures Magnitude(width, p) == Abs(Signed(width, p))
  {
    WrapShifted(width, 0 - p, 1);
    WrapShifted(width, Patterns(width) - p, 0);
  }

  lemma WrapSmall(width: nat, x: int)
    requires width > 0 && -Patterns(width - 1) <= x < Patterns(width - 1)
    ensures Signed(width, Wrap(width, x)) == x
  {
    if x >= 0 {
      WrapShifted(width, x, 0);
    } else {
      WrapShifted(width, x, 1);
      WrapShifted(width, x + Patterns(width), 0);
    }
  }

  lemma WrapAdd(width: nat, x: int, y: int)
    ensures Wrap(width, Wrap(width, x) + Wrap(width, y)) == Wrap(width, x + y)
  {
    var m := Patterns(width);
    ModShift(Wrap(width, x) + Wrap(width, y), m, x / m + y / m);
    assert x == (x / m) * m + x % m && y == (y / m) * m + y % m;
    assert x + y == x % m + y % m + (x / m + y / m) * m;
  }

  lemma RemainderFits(width: nat, a: int, b: int)
    requires width > 0 && b != 0 && -Patterns(width - 1) <= b < Patterns(width - 1)
    ensures -Patterns(width - 1) <= TruncRem(a, b) < Patterns(width - 1)
    ensures Abs(TruncRem(a, b)) == Abs(a) % Abs(b)
  {
  }

  /** The emitted signed division is the rounded quotient, wrapped. */
  lemma LoweredSignedIsNearest(width: nat, left: nat, right: nat)
    requires width > 0 && left < Patterns(width) && right < Patterns(width) && SignedDivides(width, left, right)
    ensures
      var a, b := Signed(width, left), Signed(width, right);
      LowerSignedRoundedDiv(width, left, right)
        == Wrap(width, if (a < 0) == (b < 0) then Nearest(Abs(a), Abs(b)) else -Nearest(Abs(a), Abs(b)))
  {
    hide Patterns, Xor;
    var a, b := Signed(width, left), Signed(width, right);
    HalfOfPatterns(width);
    WrapSigned(width, left);
    WrapSigned(width, right);
    RemainderFits(width, a, b);
    WrapSmall(width, TruncRem(a, b));
    MagnitudeIsAbs(width, SRem(width, left, right));
    MagnitudeIsAbs(width, right);
    var d := Abs(b);
    var r := Abs(a) % d;
    WrapShifted(width, d / 2 + d % 2, 0);
    Threshold(d, r);
    XorSigns(width, left, right);
    var step := if (a < 0) == (b < 0) then 1 else -1;
    WrapAdd(width, TruncDiv(a, b), step);
    WrapShifted(width, -1, 1);
    WrapShifted(width, MinusOne(width), 0);
    OneWraps(width);
  }

  lemma HalfOfPatterns(width: nat)
    requires width > 0
    ensures Patterns(width) == 2 * Patterns(width - 1) && Patterns(width - 1) >= 1
  {
  }

  lemma OneWraps(width: nat)
    requires width > 0
    ensures Wrap(width, 1) == 1
  {
    HalfOfPatterns(width);
    WrapShifted(width, 1, 0);
  }

  /** From two bits on, the divisor that is used always divides, and it gives the quotient and
      the remainder of the divisor that was asked for, wrapped. */
  lemma ComputableDivisorDivides(width: nat, dividend: nat, divisor: nat)
    requires width >= 2 && dividend < Patterns(width) && divisor < Patterns(width)
    ensures ComputableDivisor(width, dividend, divisor, true) == None <==> divisor == 0
    ensures divisor != 0 ==>
      var used := ComputableDivisor(width, dividend, divisor, true).value;
      var a, b := Signed(width, dividend), Signed(width, divisor);
      && b != 0 && used < Patterns(width) && SignedDivides(width, dividend, used)
      && SDiv(width, dividend, used) == Wrap(width, TruncDiv(a, b))
      && SRem(width, dividend, used) == Wrap(width, TruncRem(a, b))
  {
    HalfOfPatterns(width);
    HalfOfPatterns(width - 1);
    if dividend == Least(width) && divisor == MinusOne(width) {
      var h := Patterns(width - 1);
      assert TruncDiv(-h, -1) == h && TruncDiv(-h, 1) == -h;
      assert TruncRem(-h, -1) == 0 && TruncRem(-h, 1) == 0;
      WrapShifted(width, -h, 1);
    }
  }

  /** With one bit, minus one is the pattern the selection falls back to: no way out. */
  lemma OneBitIsTooNarrow()
    ensures ComputableDivisor(1, 1, 1, true) == Some(1) && !SignedDivides(1, 1, 1)
  {
    assert Patterns(1) == 2 && Patterns(0) == 1;
  }

  /** For every nonzero divisor the emitted signed // is the quotient rounded to the nearest
      integer, halves away from zero, wrapped to the width; a zero divisor stops the program. */
  lemma SignedRoundedDivision(width: nat, left: nat, right: nat, q: int)
    requires width >= 2 && left < Patterns(width) && right < Patterns(width) && right != 0
    requires IsNearest(Signed(width, left), Signed(width, right), q)
    ensures
      var used := ComputableDivisor(width, left, right, true).value;
      SignedDivides(width, left, used) && LowerSignedRoundedDiv(width, left, used) == Wrap(width, q)
  {
    hide Patterns, Wrap, IsNearest, LowerSignedRoundedDiv;
    var a, b := Signed(width, left), Signed(width, right);
    var used := ComputableDivisor(width, left, right, true).value;
    ComputableDivisorDivides(width, left, right);
    LoweredSignedIsNearest(width, left, used);
    NearestSigned(a, b);
    var nearest := if (a < 0) == (b < 0) then Nearest(Abs(a), Abs(b)) else -Nearest(Abs(a), Abs(b));
    NearestIsUnique(a, b, nearest, q);
    if used != right {
      LeastByMinusOne(width, left, right);
    }
  }

  /** The one quotient that does not fit wraps to the dividend itself. */
  lemma LeastByMinusOne(width: nat, left: nat, right: nat)
    requires width >= 2 && left == Least(width) && right == MinusOne(width)
    ensures
      var a := Signed(width, left);
      && Signed(width, right) == -1 && a < 0 && Signed(width, 1) == 1
      && Wrap(width, Nearest(Abs(a), Abs(-1))) == Wrap(width, -Nearest(Abs(a), Abs(1)))
  {
    HalfOfPatterns(width);
    HalfOfPatterns(width - 1);
    var h := Patterns(width - 1);
    assert h / 1 == h && h % 1 == 0;
    WrapShifted(width, -h, 1);
  }

  lemma UnsignedRoundedDivision(width: nat, left: nat, right: nat, q: int)
    requires width > 0 && left < Patterns(width) && 0 < right < Patterns(width)
    requires IsNearest(left, right, q)
    ensures LowerUnsignedRoundedDiv(width, left, right) == Wrap(width, q)
  {
    hide Patterns, IsNearest;
    HalfOfPatterns(width);
    NearestMagnitude(left, right);
    NearestIsUnique(left, right, Nearest(left, right), q);
    WrapShifted(width, right / 2 + right % 2, 0);
    Threshold(right, left % right);
    QuotientFits(left, right);
    WrapShifted(width, left / right, 0);
  }

  lemma QuotientFits(n: nat, d: nat)
    requires d > 0
    ensures n / d <= n
  {
    AtLeastOnce(d, n / d);
    assert n == d * (n / d) + n % d;
  }

  // ---------------------------------------------------------------------------
  // Powers

  lemma ModMul(x: int, y: int, m: int)
    requires m > 0
    ensures ((x % m) * y) % m == (x * y) % m
  {
    assert x == (x / m) * m + x % m;
    assert x * y == (x % m) * y + ((x / m) * y) * m;
    ModShift((x % m) * y, m, (x / m) * y);
  }

  lemma {:induction false} PowMod(b: int, e: nat, m: int)
    requires m > 0
    ensures Pow(b % m, e) % m == Pow(b, e) % m
  {
    if e > 0 {
      PowMod(b, e - 1, m);
      ProductMod(b, Pow(b % m, e - 1), Pow(b, e - 1), m);
    }
  }

  lemma ProductMod(b: int, p: int, q: int, m: int)
    requires m > 0 && p % m == q % m
    ensures (b % m * p) % m == (b * q) % m
  {
    Commutes(b, p);
    Commutes(b, q);
    var bp, pb, bq, qb := b * p, p * b, b * q, q * b;
    assert (b % m * p) % m == bp % m by {
      ModMul(b, p, m);
    }
    assert (p % m * b) % m == pb % m by {
      ModMul(p, b, m);
    }
    assert (q % m * b) % m == qb % m by {
      ModMul(q, b, m);
    }
  }

  lemma Commutes(x: int, y: int)
    ensures x * y == y * x
  {
  }

  lemma {:induction false} PowSquare(b: int, e: nat)
    ensures Pow(b * b, e) == Pow(b, 2 * e)
  {
    if e > 0 {
      PowSquare(b, e - 1);
      assert Pow(b, 2 * e) == b * Pow(b, 2 * e - 1);
      assert Pow(b, 2 * e - 1) == b * Pow(b, 2 * e - 2);
      var p := Pow(b, 2 * e - 2);
      assert b * (b * p) == (b * b) * p;
    }
  }

  lemma PowerStarts(width: nat, base: nat, exponent: nat)
    requires width > 0
    ensures 1 < Patterns(width) && 1 * Pow(base, exponent) == Pow(base, exponent)
  {
    HalfOfPatterns(width);
  }

  lemma PowerEnds(width: nat, result: nat, factor: nat)
    requires result < Patterns(width)
    ensures Wrap(width, result * Pow(factor, 0)) == result
  {
    assert result * Pow(factor, 0) == result;
    WrapShifted(width, result, 0);
  }

  lemma PowerRound(width: nat, result: nat, factor: nat, remaining: nat)
    requires remaining > 0 && result < Patterns(width)
    ensures
      var next := if LowBit(remaining) != 0 then Mul(width, result, factor) else result;
      && next < Patterns(width)
      && Wrap(width, next * Pow(Mul(width, factor, factor), ShiftRightOne(remaining)))
          == Wrap(width, result * Pow(factor, remaining))
  {
    hide Pow;
    PowerStep(Patterns(width), result, factor, remaining);
  }

  /** One round of the loop keeps the product. */
  lemma PowerStep(m: int, result: int, factor: int, remaining: nat)
    requires m > 0 && remaining > 0
    ensures
      var next := if remaining % 2 != 0 then (result * factor) % m else result;
      (next * Pow((factor * factor) % m, remaining / 2)) % m == (result * Pow(factor, remaining)) % m
  {
    var half := remaining / 2;
    var p, s := Pow((factor * factor) % m, half), Pow(factor, 2 * half);
    PowMod(factor * factor, half, m);
    PowSquare(factor, half);
    assert p % m == s % m;
    if remaining % 2 != 0 {
      assert Pow(factor, remaining) == factor * s;
      var x := result * factor;
      SameFactor(x % m, p, s, m);
      ModMul(x, s, m);
      assert x * s == result * (factor * s);
    } else {
      assert remaining == 2 * half;
      SameFactor(result, p, s, m);
    }
  }

  lemma SameFactor(x: int, p: int, s: int, m: int)
    requires m > 0 && p % m == s % m
    ensures (x * p) % m == (x * s) % m
  {
    ModMul(p, x, m);
    ModMul(s, x, m);
    assert p * x == x * p && s * x == x * s;
  }
}
