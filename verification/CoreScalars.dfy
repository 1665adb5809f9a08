/** Integer literals and the scalar catalog (Talac/Core/Scalar.cpp): which literals fit a type is a
    question about their value. */
module CoreScalars {
  import opened Wrappers
  import opened TypeIdentity
  import opened WireFormat
  import opened GeneratorArithmetic

  datatype Family = BooleanScalar | CharacterScalar | SignedInteger | UnsignedInteger | FloatingScalar

  datatype Description = Description(family: Family, width: nat)

  const UNIT_KIND: nat := 0
  const BOOL_KIND: nat := 1
  const STRING_KIND: nat := 17

  function Describe(kind: nat): (d: Option<Description>)
    ensures d.Some? ==> d.value.width % 8 == 0 && d.value.width > 0
  {
    match kind
    case 1 => Some(Description(BooleanScalar, 8))
    case 2 => Some(Description(CharacterScalar, 32))
    case 3 => Some(Description(SignedInteger, 8))
    case 4 => Some(Description(SignedInteger, 16))
    case 5 => Some(Description(SignedInteger, 64))
    case 6 => Some(Description(SignedInteger, 32))
    case 7 => Some(Description(SignedInteger, 128))
    case 8 => Some(Description(UnsignedInteger, 8))
    case 9 => Some(Description(UnsignedInteger, 16))
    case 10 => Some(Description(UnsignedInteger, 32))
    case 11 => Some(Description(UnsignedInteger, 64))
    case 12 => Some(Description(UnsignedInteger, 128))
    case 13 => Some(Description(FloatingScalar, 16))
    case 14 => Some(Description(FloatingScalar, 32))
    case 15 => Some(Description(FloatingScalar, 64))
    case 16 => Some(Description(FloatingScalar, 128))
    case _ => None
  }

  // ---------------------------------------------------------------------------
  // The value of a literal

  /** The number that octets spell, the most significant first. */
  function Magnitude(octets: seq<nat>): nat {
    if octets == [] then 0 else Magnitude(octets[..|octets| - 1]) * 256 + octets[|octets| - 1]
  }

  function NumberOf(v: IntegerLiteral): int {
    if v.negative then 0 - Magnitude(v.magnitude) else Magnitude(v.magnitude)
  }

  // ---------------------------------------------------------------------------
  // The check

  function BitLength(octet: nat): (n: nat)
    ensures octet > 0 ==> n > 0
  {
    if octet == 0 then 0 else 1 + BitLength(octet / 2)
  }

  function SignificantBits(magnitude: seq<nat>): nat {
    if magnitude == [] then 0 else (|magnitude| - 1) * 8 + BitLength(magnitude[0])
  }

  predicate AllZero(octets: seq<nat>) {
    forall i :: 0 <= i < |octets| ==> octets[i] == 0
  }

  predicate IsExactMinimum(v: IntegerLiteral, width: nat)
    requires width > 0
  {
    && v.negative && SignificantBits(v.magnitude) == width
    && v.magnitude[0] == Patterns((width - 1) % 8)
    && AllZero(v.magnitude[1..])
  }

  predicate IntegerFits(v: IntegerLiteral, kind: nat) {
    match Describe(kind)
    case None => false
    case Some(d) =>
      && IsCanonical(v)
      && var bits := SignificantBits(v.magnitude);
         match d.family
         case CharacterScalar => !v.negative && bits <= 32
         case UnsignedInteger => !v.negative && bits <= d.width
         case SignedInteger => bits < d.width || (v.negative && IsExactMinimum(v, d.width))
         case _ => false
  }

  /** Whether a number is a value of an integer or character kind. */
  predicate InRange(n: int, kind: nat) {
    match Describe(kind)
    case None => false
    case Some(d) =>
      match d.family
      case CharacterScalar => 0 <= n < Patterns(32)
      case UnsignedInteger => 0 <= n < Patterns(d.width)
      case SignedInteger => 0 - Patterns(d.width - 1) <= n < Patterns(d.width - 1)
      case _ => false
  }

  // ---------------------------------------------------------------------------
  // Bits and size

  lemma {:induction false} PowersMultiply(a: nat, b: nat)
    ensures Patterns(a + b) == Patterns(a) * Patterns(b)
    decreases b
  {
    if b > 0 {
      PowersMultiply(a, b - 1);
      assert Patterns(a + b) == 2 * Patterns(a + (b - 1));
    }
  }

  lemma {:induction false} PowersGrow(a: nat, b: nat)
    requires a <= b
    ensures Patterns(a) <= Patterns(b)
    decreases b
  {
    if a < b {
      PowersGrow(a, b - 1);
    }
  }

  lemma PowerOf8()
    ensures Patterns(8) == 256
  {
    assert Patterns(4) == 16;
  }

  lemma {:induction false} BitLengthBounds(octet: nat, n: nat)
    requires octet < Patterns(n)
    ensures BitLength(octet) <= n && octet < Patterns(BitLength(octet))
    ensures octet > 0 ==> BitLength(octet) > 0 && Patterns(BitLength(octet) - 1) <= octet
    decreases n
  {
    if octet > 0 {
      BitLengthBounds(octet / 2, n - 1);
    }
  }

  lemma Shifted(a: nat, p: nat, rest: nat, last: nat)
    requires rest < p && last < 256
    ensures (a * p + rest) * 256 + last == a * (p * 256) + (rest * 256 + last) && rest * 256 + last < p * 256
  {
  }

  /** The first octet counts for as many octets as follow it. */
  lemma {:induction false} MagnitudeSplit(s: seq<nat>)
    requires s != [] && AllOctets(s)
    ensures Magnitude(s[1..]) < Patterns(8 * (|s| - 1))
    ensures Magnitude(s) == s[0] * Patterns(8 * (|s| - 1)) + Magnitude(s[1..])
    decreases |s|
  {
    hide Patterns;
    var n := |s| - 1;
    if n == 0 {
      assert s[..0] == [] && s[1..] == [];
      assert Magnitude([]) == 0;
      assert Patterns(8 * n) == 1 by {
        NoPower();
      }
    } else {
      var front := s[..n];
      MagnitudeSplit(front);
      assert front[1..] == s[1..][..n - 1] && s[1..][n - 1] == s[n];
      PowersMultiply(8 * (n - 1), 8);
      PowerOf8();
      assert Patterns(8 * n) == Patterns(8 * (n - 1)) * 256;
      Shifted(s[0], Patterns(8 * (n - 1)), Magnitude(front[1..]), s[n]);
    }
  }

  lemma NoPower()
    ensures Patterns(0) == 1
  {
  }

  lemma OnePower(n: nat)
    requires n > 0
    ensures Patterns(n) == 2 * Patterns(n - 1)
  {
  }

  lemma {:induction false} ZeroMagnitude(s: seq<nat>)
    ensures Magnitude(s) == 0 <==> AllZero(s)
    decreases |s|
  {
    if s != [] {
      var front := s[..|s| - 1];
      ZeroMagnitude(front);
      assert AllZero(s) <==> AllZero(front) && s[|s| - 1] == 0 by {
        assert forall i :: 0 <= i < |front| ==> s[i] == front[i];
      }
    }
  }

  lemma Between(a: nat, low: nat, high: nat, p: nat, r: nat)
    requires low <= a < high && r < p
    ensures low * p <= a * p + r < high * p
  {
    assert (a + 1) * p <= high * p;
    assert low * p <= a * p;
  }

  /** A canonical magnitude has exactly as many bits as its number. */
  lemma BitsMeasure(s: seq<nat>)
    requires AllOctets(s) && (s != [] ==> s[0] != 0)
    ensures Magnitude(s) < Patterns(SignificantBits(s))
    ensures s != [] ==> SignificantBits(s) > 0 && Patterns(SignificantBits(s) - 1) <= Magnitude(s)
  {
    hide Patterns, BitLength;
    if s == [] {
      NoPower();
      assert Magnitude([]) == 0;
    } else {
      var n := 8 * (|s| - 1);
      PowerOf8();
      BitLengthBounds(s[0], 8);
      var h := BitLength(s[0]);
      MagnitudeSplit(s);
      PowersMultiply(h, n);
      PowersMultiply(h - 1, n);
      assert SignificantBits(s) == h + n;
      Between(s[0], Patterns(h - 1), Patterns(h), Patterns(n), Magnitude(s[1..]));
    }
  }

  /** For a canonical magnitude, fewer bits is the same as below the power. */
  lemma BitsBelow(s: seq<nat>, n: nat)
    requires AllOctets(s) && (s != [] ==> s[0] != 0)
    ensures SignificantBits(s) <= n <==> Magnitude(s) < Patterns(n)
  {
    hide Patterns, BitLength;
    BitsMeasure(s);
    if SignificantBits(s) <= n {
      PowersGrow(SignificantBits(s), n);
    } else {
      assert s != [];
      PowersGrow(n, SignificantBits(s) - 1);
    }
  }

  lemma Quotient(a: nat, b: nat, p: nat, r: nat)
    requires r < p && a * p + r == b * p
    ensures a == b && r == 0
  {
    assert a < b ==> (a + 1) * p <= b * p;
    assert a > b ==> (b + 1) * p <= a * p;
  }

  /** The one negative number that needs all bits of its width. */
  lemma MinimumIsExact(v: IntegerLiteral, width: nat)
    requires width > 0 && AllOctets(v.magnitude) && IsCanonical(v) && v.negative
    ensures IsExactMinimum(v, width) <==> Magnitude(v.magnitude) == Patterns(width - 1)
  {
    hide Patterns, BitLength, AllZero;
    var s := v.magnitude;
    BitsBelow(s, width);
    BitsBelow(s, width - 1);
    OnePower(width);
    if SignificantBits(s) == width {
      var n, h := 8 * (|s| - 1), BitLength(s[0]);
      PowerOf8();
      BitLengthBounds(s[0], 8);
      assert width - 1 == (|s| - 1) * 8 + (h - 1) && (width - 1) % 8 == h - 1;
      PowersMultiply(h - 1, n);
      MagnitudeSplit(s);
      ZeroMagnitude(s[1..]);
      if Magnitude(s) == Patterns(width - 1) {
        Quotient(s[0], Patterns(h - 1), Patterns(n), Magnitude(s[1..]));
      }
    }
  }

  /** A literal fits a kind exactly when it is canonical and its number is one of the kind's. */
  lemma FitsIsRange(v: IntegerLiteral, kind: nat)
    requires AllOctets(v.magnitude)
    ensures IntegerFits(v, kind) <==> IsCanonical(v) && InRange(NumberOf(v), kind)
  {
    hide SignificantBits, IsExactMinimum, Patterns, Magnitude, AllOctets;
    if Describe(kind).Some? && IsCanonical(v) {
      var d := Describe(kind).value;
      var s := v.magnitude;
      BitsMeasure(s);
      BitsBelow(s, 32);
      BitsBelow(s, d.width);
      BitsBelow(s, d.width - 1);
      if v.negative {
        NegativeIsBelowZero(v);
        MinimumIsExact(v, d.width);
      }
    }
  }

  lemma NarrowPowers()
    ensures Patterns(7) == 0x80 && Patterns(8) == 0x100 && Patterns(15) == 0x8000 && Patterns(16) == 0x1_0000
    ensures Patterns(31) == 0x8000_0000 && Patterns(32) == 0x1_0000_0000
  {
    hide *;
    PowerOf8();
    PowersMultiply(8, 8);
    PowersMultiply(16, 16);
    OnePower(8);
    OnePower(16);
    OnePower(32);
  }

  lemma WidePowers()
    ensures Patterns(63) == 0x8000_0000_0000_0000 && Patterns(64) == 0x1_0000_0000_0000_0000
    ensures Patterns(127) == 0x8000_0000_0000_0000_0000_0000_0000_0000
    ensures Patterns(128) == 0x1_0000_0000_0000_0000_0000_0000_0000_0000
  {
    hide *;
    NarrowPowers();
    PowersMultiply(32, 32);
    PowersMultiply(64, 64);
    OnePower(64);
    OnePower(128);
  }

  /** The values of every integer and character kind, by the number of the kind. */
  lemma KindRanges(n: int)
    ensures InRange(n, 2) <==> 0 <= n < 0x1_0000_0000
    ensures InRange(n, 3) <==> -0x80 <= n < 0x80
    ensures InRange(n, 4) <==> -0x8000 <= n < 0x8000
    ensures InRange(n, 5) <==> -0x8000_0000_0000_0000 <= n < 0x8000_0000_0000_0000
    ensures InRange(n, 6) <==> -0x8000_0000 <= n < 0x8000_0000
    ensures InRange(n, 7) <==>
      -0x8000_0000_0000_0000_0000_0000_0000_0000 <= n < 0x8000_0000_0000_0000_0000_0000_0000_0000
    ensures InRange(n, 8) <==> 0 <= n < 0x100
    ensures InRange(n, 9) <==> 0 <= n < 0x1_0000
    ensures InRange(n, 10) <==> 0 <= n < 0x1_0000_0000
    ensures InRange(n, 11) <==> 0 <= n < 0x1_0000_0000_0000_0000
    ensures InRange(n, 12) <==> 0 <= n < 0x1_0000_0000_0000_0000_0000_0000_0000_0000
    ensures forall kind: nat :: kind < 2 || kind > 12 ==> !InRange(n, kind)
  {
    hide Patterns;
    NarrowPowers();
    WidePowers();
  }

  /** A number has one canonical literal. */
  lemma CanonicalIsOne(v: IntegerLiteral, w: IntegerLiteral)
    requires AllOctets(v.magnitude) && AllOctets(w.magnitude) && IsCanonical(v) && IsCanonical(w)
    ensures NumberOf(v) == NumberOf(w) <==> v == w
  {
    if NumberOf(v) == NumberOf(w) {
      if v.negative {
        NegativeIsBelowZero(v);
      }
      if w.negative {
        NegativeIsBelowZero(w);
      }
      MagnitudeIsOne(v.magnitude, w.magnitude);
    }
  }

  lemma {:induction false} MagnitudeIsOne(s: seq<nat>, t: seq<nat>)
    requires AllOctets(s) && AllOctets(t) && (s == [] || s[0] != 0) && (t == [] || t[0] != 0)
    requires Magnitude(s) == Magnitude(t)
    ensures s == t
    decreases |s|
  {
    hide Magnitude, Patterns, SignificantBits;
    EmptyMagnitude(s);
    EmptyMagnitude(t);
    if s != [] && t != [] {
      var n, m := |s| - 1, |t| - 1;
      LastOctet(s);
      LastOctet(t);
      LastDigit(Magnitude(s[..n]), s[n], Magnitude(t[..m]), t[m]);
      MagnitudeIsOne(s[..n], t[..m]);
      assert s == s[..n] + [s[n]] && t == t[..m] + [t[m]];
    }
  }

  lemma EmptyMagnitude(s: seq<nat>)
    requires AllOctets(s) && (s == [] || s[0] != 0)
    ensures Magnitude(s) == 0 <==> s == []
  {
    hide Patterns, SignificantBits;
    BitsMeasure(s);
  }

  lemma LastOctet(s: seq<nat>)
    requires s != []
    ensures Magnitude(s) == Magnitude(s[..|s| - 1]) * 256 + s[|s| - 1]
  {
  }

  lemma LastDigit(a: nat, x: nat, b: nat, y: nat)
    requires a * 256 + x == b * 256 + y && x < 256 && y < 256
    ensures a == b && x == y
  {
  }

  lemma NegativeIsBelowZero(v: IntegerLiteral)
    requires AllOctets(v.magnitude) && IsCanonical(v) && v.negative
    ensures Magnitude(v.magnitude) > 0
  {
    BitsMeasure(v.magnitude);
  }

  // ---------------------------------------------------------------------------
  // Integers of the source's own types

  function FromUnsigned(value: nat): (s: seq<nat>)
    ensures AllOctets(s)
  {
    if value == 0 then [] else FromUnsigned(value / 256) + [value % 256]
  }

  function Modulo64(n: int): (r: nat)
    ensures r <= MAXIMUM_U64
  {
    n % (MAXIMUM_U64 + 1)
  }

  /** The magnitude is computed in unsigned space, where the least number has one. */
  function FromSigned(value: int): (v: IntegerLiteral)
    ensures AllOctets(v.magnitude)
  {
    var magnitude := FromUnsigned(if value < 0 then Modulo64(0 - Modulo64(value)) else Modulo64(value));
    IntegerLiteral(value < 0 && magnitude != [], magnitude)
  }

  const HALF: int := 0x8000_0000_0000_0000

  lemma {:induction false} FromUnsignedIsValue(value: nat)
    ensures Magnitude(FromUnsigned(value)) == value
    ensures if value == 0 then FromUnsigned(value) == [] else FromUnsigned(value) != [] && FromUnsigned(value)[0] != 0
  {
    if value > 0 {
      FromUnsignedIsValue(value / 256);
      var front := FromUnsigned(value / 256);
      assert (front + [value % 256])[..|front|] == front;
    }
  }

  /** Every number of 64 bits becomes the canonical literal of the same value. */
  lemma FromSignedIsValue(value: int)
    requires -HALF <= value < HALF
    ensures NumberOf(FromSigned(value)) == value && IsCanonical(FromSigned(value))
  {
    hide Modulo64, FromUnsigned;
    if value < 0 {
      Opposite(value);
      FromUnsignedIsValue(-value);
    } else {
      InRange64(value);
      FromUnsignedIsValue(value);
    }
  }

  lemma InRange64(value: int)
    requires 0 <= value < HALF
    ensures Modulo64(value) == value
  {
  }

  lemma Opposite(value: int)
    requires -HALF <= value < 0
    ensures Modulo64(0 - Modulo64(value)) == -value
  {
    assert Modulo64(value) == value + (MAXIMUM_U64 + 1);
    assert Modulo64(-value - (MAXIMUM_U64 + 1)) == -value;
  }

  lemma {:induction false} ReversedAppend(a: seq<nat>, b: seq<nat>)
    ensures Reversed(a + b) == Reversed(b) + Reversed(a)
    decreases a
  {
    if a == [] {
      assert a + b == b;
    } else {
      assert (a + b)[1..] == a[1..] + b;
      ReversedAppend(a[1..], b);
    }
  }

  function Reversed(s: seq<nat>): seq<nat> {
    if s == [] then [] else Reversed(s[1..]) + [s[0]]
  }

  lemma OctetMoves(value: nat, magnitude: seq<nat>)
    requires value != 0
    ensures FromUnsigned(value) + Reversed(magnitude) == FromUnsigned(value / 256) + Reversed(magnitude + [value % 256])
  {
    ReversedAppend(magnitude, [value % 256]);
    assert Reversed([value % 256]) == [value % 256];
  }

  method UnsignedOctets(given: nat) returns (magnitude: seq<nat>)
    ensures magnitude == FromUnsigned(given)
  {
    hide Reversed;
    var value := given;
    magnitude := [];
    NothingReversed();
    while value != 0
      invariant FromUnsigned(given) == FromUnsigned(value) + Reversed(magnitude)
    {
      OctetMoves(value, magnitude);
      magnitude := magnitude + [value % 256];
      value := value / 256;
    }
    magnitude := Backward(magnitude);
  }

  lemma NothingReversed()
    ensures Reversed([]) == []
  {
  }

  method Backward(s: seq<nat>) returns (r: seq<nat>)
    ensures r == Reversed(s)
  {
    r := [];
    for i := 0 to |s|
      invariant r == Reversed(s[..i])
    {
      assert s[..i + 1] == s[..i] + [s[i]];
      ReversedAppend(s[..i], [s[i]]);
      assert Reversed([s[i]]) == [s[i]];
      r := [s[i]] + r;
    }
    assert s[..|s|] == s;
  }

  lemma MaskStep(first: nat, bits: nat)
    requires bits > 0 && first < Patterns(bits)
    ensures first / Patterns(bits - 1) % 2 == 0 <==> first < Patterns(bits - 1)
  {
    var mask := Patterns(bits - 1);
    assert first < 2 * mask;
    hide Patterns;
    if first < mask {
      assert first / mask == 0;
    } else {
      assert first == 1 * mask + (first - mask);
      assert first / mask == 1;
    }
  }

  /** The mask goes down from the highest bit while it meets none. */
  method HighBits(first: nat) returns (bits: nat)
    requires first < 256
    ensures bits == BitLength(first)
  {
    hide Patterns;
    bits := 8;
    var mask := 128;
    HighestBit();
    while mask != 0 && first / mask % 2 == 0
      invariant mask == (if bits == 0 then 0 else Patterns(bits - 1)) && first < Patterns(bits)
    {
      MaskStep(first, bits);
      MaskHalves(bits);
      bits := bits - 1;
      mask := mask / 2;
    }
    BitLengthBounds(first, bits);
    if bits == 0 {
      NoPower();
    } else {
      MaskStep(first, bits);
      if BitLength(first) < bits {
        PowersGrow(BitLength(first), bits - 1);
      }
    }
  }

  lemma HighestBit()
    ensures Patterns(7) == 128 && Patterns(8) == 256
  {
    assert Patterns(4) == 16;
  }

  lemma MaskHalves(bits: nat)
    requires bits > 0
    ensures Patterns(bits - 1) / 2 == if bits == 1 then 0 else Patterns(bits - 2)
  {
  }

  // ---------------------------------------------------------------------------
  // Spellings of floating-point literals

  function Codes(s: string): seq<nat> {
    seq(|s|, i requires 0 <= i < |s| => s[i] as int)
  }

  predicate IsDigitCode(c: nat) {
    48 <= c <= 57
  }

  function AfterDigits(s: seq<nat>, i: nat): (r: nat)
    requires i <= |s|
    ensures i <= r <= |s| && (forall k :: i <= k < r ==> IsDigitCode(s[k])) && (r < |s| ==> !IsDigitCode(s[r]))
    decreases |s| - i
  {
    if i < |s| && IsDigitCode(s[i]) then AfterDigits(s, i + 1) else i
  }

  predicate IsSign(c: nat) {
    c == 43 || c == 45
  }

  function AfterSign(s: seq<nat>, i: nat): (r: nat)
    requires i <= |s|
    ensures i <= r <= |s| && r <= i + 1
  {
    if i < |s| && IsSign(s[i]) then i + 1 else i
  }

  predicate IsSpecial(s: seq<nat>) {
    s == Codes("nan") || s == Codes("+nan") || s == Codes("-nan") || s == Codes("inf") || s == Codes("+inf")
        || s == Codes("-inf")
  }

  function AfterFraction(s: seq<nat>, i: nat): (r: nat)
    requires i <= |s|
    ensures i <= r <= |s|
  {
    if i < |s| && s[i] == 46 then AfterDigits(s, i + 1) else i
  }

  predicate FloatingIsValid(s: seq<nat>) {
    s != [] && (IsSpecial(s) ||
      var start := AfterSign(s, 0);
      var whole := AfterDigits(s, start);
      var fraction := AfterFraction(s, whole);
      var hasDigits := whole > start || fraction > whole + 1;
      hasDigits &&
      if fraction < |s| && (s[fraction] == 101 || s[fraction] == 69) then
        var exponent := AfterSign(s, fraction + 1);
        var end := AfterDigits(s, exponent);
        end > exponent && end == |s|
      else fraction == |s|)
  }

  // The language of the check, by the places at which its parts begin and end

  predicate DigitsBetween(s: seq<nat>, i: nat, j: nat) {
    i <= j <= |s| && forall k :: i <= k < j ==> IsDigitCode(s[k])
  }

  predicate SignBetween(s: seq<nat>, i: nat, j: nat) {
    j == i || (j == i + 1 <= |s| && IsSign(s[i]))
  }

  /** A point and digits, or nothing. */
  predicate FractionBetween(s: seq<nat>, i: nat, j: nat) {
    j == i || (i < |s| && s[i] == 46 && DigitsBetween(s, i + 1, j))
  }

  /** An exponent letter, a sign or none, and digits. */
  predicate IsExponent(s: seq<nat>, i: nat, k: nat, j: nat) {
    i < |s| && (s[i] == 101 || s[i] == 69) && SignBetween(s, i + 1, k) && k < j && DigitsBetween(s, k, j)
  }

  ghost predicate ExponentBetween(s: seq<nat>, i: nat, j: nat) {
    j == i || exists k: nat :: IsExponent(s, i, k, j)
  }

  /** Sign, digits, fraction and exponent, with a digit before the exponent. */
  ghost predicate SplitsAt(s: seq<nat>, a: nat, b: nat, c: nat) {
    && SignBetween(s, 0, a) && DigitsBetween(s, a, b) && FractionBetween(s, b, c) && ExponentBetween(s, c, |s|)
    && c <= |s| && (b > a || c > b + 1)
  }

  ghost predicate IsNumeral(s: seq<nat>) {
    exists a: nat, b: nat, c: nat :: SplitsAt(s, a, b, c)
  }

  /** The cursor accepts exactly the special spellings and the numerals. */
  lemma FloatingIsGrammar(s: seq<nat>)
    ensures FloatingIsValid(s) <==> IsSpecial(s) || IsNumeral(s)
  {
    hide SplitsAt, IsSpecial;
    if FloatingIsValid(s) && !IsSpecial(s) {
      ValidSplits(s);
    }
    if IsSpecial(s) {
      SpecialIsNotEmpty(s);
    }
    if IsNumeral(s) {
      var a: nat, b: nat, c: nat :| SplitsAt(s, a, b, c);
      SplitIsValid(s, a, b, c);
    }
  }

  lemma SpecialIsNotEmpty(s: seq<nat>)
    requires IsSpecial(s)
    ensures s != []
  {
    assert |Codes("nan")| == 3 && |Codes("+nan")| == 4 && |Codes("-nan")| == 4;
    assert |Codes("inf")| == 3 && |Codes("+inf")| == 4 && |Codes("-inf")| == 4;
  }

  lemma ValidSplits(s: seq<nat>)
    requires FloatingIsValid(s) && !IsSpecial(s)
    ensures IsNumeral(s)
  {
    hide AfterDigits, IsSpecial, IsDigitCode;
    var a := AfterSign(s, 0);
    var b := AfterDigits(s, a);
    var c := AfterFraction(s, b);
    if c < |s| {
      assert IsExponent(s, c, AfterSign(s, c + 1), |s|);
    }
    assert SplitsAt(s, a, b, c);
  }

  lemma {:induction false} DigitsEndAt(s: seq<nat>, i: nat, r: nat)
    requires DigitsBetween(s, i, r) && (r < |s| ==> !IsDigitCode(s[r]))
    ensures AfterDigits(s, i) == r
    decreases r - i
  {
    if i < r {
      DigitsEndAt(s, i + 1, r);
    }
  }

  lemma SplitIsValid(s: seq<nat>, a: nat, b: nat, c: nat)
    requires SplitsAt(s, a, b, c)
    ensures FloatingIsValid(s)
  {
    hide AfterDigits, IsSpecial;
    assert AfterSign(s, 0) == a;
    DigitsEndAt(s, a, b);
    if b < c {
      DigitsEndAt(s, b + 1, c);
    }
    assert AfterFraction(s, b) == c;
    if c < |s| {
      var k: nat :| IsExponent(s, c, k, |s|);
      assert AfterSign(s, c + 1) == k;
      DigitsEndAt(s, k, |s|);
    }
  }

  predicate IsAscii(s: seq<nat>) {
    forall i :: 0 <= i < |s| ==> s[i] <= 0x7f
  }

  lemma FloatingIsAscii(s: seq<nat>)
    requires FloatingIsValid(s)
    ensures IsAscii(s)
  {
    if !IsSpecial(s) {
      var start := AfterSign(s, 0);
      var whole := AfterDigits(s, start);
      var fraction := AfterFraction(s, whole);
      assert forall k :: 0 <= k < fraction ==> s[k] <= 0x7f;
    }
  }

  method SkipDigits(s: seq<nat>, start: nat) returns (cursor: nat)
    requires start <= |s|
    ensures cursor == AfterDigits(s, start)
  {
    cursor := start;
    while cursor < |s| && IsDigitCode(s[cursor])
      invariant start <= cursor <= |s| && AfterDigits(s, start) == AfterDigits(s, cursor)
    {
      cursor := cursor + 1;
    }
  }

  method CheckFloating(s: seq<nat>) returns (r: bool)
    ensures r == FloatingIsValid(s)
  {
    hide AfterDigits, IsSpecial;
    if s == [] || IsSpecial(s) {
      return s != [];
    }
    var cursor := AfterSign(s, 0);
    var start := cursor;
    cursor := SkipDigits(s, cursor);
    var integralDigits := cursor > start;
    var fractionalDigits := false;
    if cursor < |s| && s[cursor] == 46 {
      var point := cursor;
      cursor := SkipDigits(s, point + 1);
      fractionalDigits := cursor > point + 1;
    }
    if !integralDigits && !fractionalDigits {
      return false;
    }
    if cursor < |s| && (s[cursor] == 101 || s[cursor] == 69) {
      var exponentStart := AfterSign(s, cursor + 1);
      cursor := SkipDigits(s, exponentStart);
      if cursor == exponentStart {
        return false;
      }
    }
    r := cursor == |s|;
  }
}
