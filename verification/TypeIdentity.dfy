/** The textual identity of a Core type (Talac/Core/Template.cpp): every part is counted or
    delimited, so that nothing but the meaning of a type can be read out of it, and all of it. */
module TypeIdentity {
  import opened Wrappers

  type Text = seq<nat>

  datatype SymbolName = SymbolName(id: nat, spelling: Text)

  datatype IntegerLiteral = IntegerLiteral(negative: bool, magnitude: seq<nat>)

  datatype ValueKind = IntegerValue | BooleanValue | CharacterValue | ParameterValue

  datatype TemplateValue = TemplateValue(kind: ValueKind, integer: IntegerLiteral, boolean: bool, parameter: SymbolName)

  datatype Argument = Argument(isType: bool, payload: Option<Type>, value: TemplateValue)

  /** The kind of a type by its number in the source's enumeration. */
  datatype Type = Type(kind: nat, name: seq<Text>, components: seq<Type>, arguments: seq<Argument>,
      variable: SymbolName)

  const FUNCTION: nat := 18
  const NAMED: nat := 19
  const TYPE_VARIABLE: nat := 20

  // ---------------------------------------------------------------------------
  // What a type means

  const NO_SYMBOL := SymbolName(0, [])
  const NO_INTEGER := IntegerLiteral(false, [])
  const UNIT := Type(0, [], [], [], NO_SYMBOL)

  /** Twenty-four bits of a code point are written. */
  function Point(scalar: nat): (p: nat)
    ensures p < 0x1000000
  {
    scalar % 0x1000000
  }

  function TextMeaning(text: Text): (r: Text)
    ensures |r| == |text|
  {
    seq(|text|, i requires 0 <= i < |text| => Point(text[i]))
  }

  function NameMeaning(name: seq<Text>): seq<Text> {
    seq(|name|, i requires 0 <= i < |name| => TextMeaning(name[i]))
  }

  function SymbolMeaning(s: SymbolName): SymbolName {
    SymbolName(s.id, TextMeaning(s.spelling))
  }

  function IntegerMeaning(v: IntegerLiteral): IntegerLiteral {
    IntegerLiteral(v.negative, seq(|v.magnitude|, i requires 0 <= i < |v.magnitude| => v.magnitude[i] % 256))
  }

  /** A value keeps only the payload of its kind. */
  function ValueMeaning(v: TemplateValue): TemplateValue {
    match v.kind
    case IntegerValue => TemplateValue(v.kind, IntegerMeaning(v.integer), false, NO_SYMBOL)
    case CharacterValue => TemplateValue(v.kind, IntegerMeaning(v.integer), false, NO_SYMBOL)
    case BooleanValue => TemplateValue(v.kind, NO_INTEGER, v.boolean, NO_SYMBOL)
    case ParameterValue => TemplateValue(v.kind, NO_INTEGER, false, SymbolMeaning(v.parameter))
  }

  const NO_VALUE := TemplateValue(IntegerValue, NO_INTEGER, false, NO_SYMBOL)

  function ArgumentMeaning(a: Argument): Argument {
    if a.isType then Argument(true, if a.payload.Some? then Some(Meaning(a.payload.value)) else None, NO_VALUE)
    else Argument(false, None, ValueMeaning(a.value))
  }

  function ArgumentsMeaning(s: seq<Argument>): seq<Argument> {
    if s == [] then [] else [ArgumentMeaning(s[0])] + ArgumentsMeaning(s[1..])
  }

  function TypesMeaning(s: seq<Type>): seq<Type> {
    if s == [] then [] else [Meaning(s[0])] + TypesMeaning(s[1..])
  }

  /** A type keeps only the payload of its kind. */
  function Meaning(t: Type): Type {
    if t.kind == NAMED then Type(NAMED, NameMeaning(t.name), [], ArgumentsMeaning(t.arguments), NO_SYMBOL)
    else if t.kind == FUNCTION then Type(FUNCTION, [], TypesMeaning(t.components), [], NO_SYMBOL)
    else if t.kind == TYPE_VARIABLE then Type(TYPE_VARIABLE, [], [], [], SymbolMeaning(t.variable))
    else Type(t.kind, [], [], [], NO_SYMBOL)
  }

  // ---------------------------------------------------------------------------
  // Rendering, each part followed by a given rest

  function Digit(d: nat): (c: char)
    requires d < 10
    ensures IsDigit(c)
  {
    ('0' as int + d) as char
  }

  predicate IsDigit(c: char) {
    '0' <= c <= '9'
  }

  function Hex(d: nat): char
    requires d < 16
  {
    if d < 10 then Digit(d) else ('a' as int + d - 10) as char
  }

  function Decimal(n: nat): (s: string)
    ensures s != [] && forall i :: 0 <= i < |s| ==> IsDigit(s[i])
  {
    if n < 10 then [Digit(n)] else Decimal(n / 10) + [Digit(n % 10)]
  }

  /** A number and the character that ends it. */
  function Counted(n: nat, end: char, rest: string): string {
    Decimal(n) + ([end] + rest)
  }

  /** The six hexadecimal digits of a code point, each four bits further to the right. */
  function SixDigits(p: nat): (s: string)
    requires p < 0x1000000
    ensures |s| == 6
  {
    [Hex(p / 16 / 16 / 16 / 16 / 16), Hex(p / 16 / 16 / 16 / 16 % 16), Hex(p / 16 / 16 / 16 % 16),
        Hex(p / 16 / 16 % 16),
     Hex(p / 16 % 16), Hex(p % 16)]
  }

  function HexText(text: Text, rest: string): string {
    if text == [] then rest
    else
      SixDigits(Point(text[0])) + HexText(text[1..], rest)
  }

  function RenderText(text: Text, rest: string): string {
    Counted(|text|, ':', HexText(text, rest))
  }

  function RenderName(name: seq<Text>, rest: string): string {
    if name == [] then rest else RenderText(name[0], RenderName(name[1..], rest))
  }

  function HexOctets(octets: seq<nat>, rest: string): string {
    if octets == [] then rest
    else [Hex(octets[0] % 256 / 16), Hex(octets[0] % 256 % 16)] + HexOctets(octets[1..], rest)
  }

  function RenderInteger(v: IntegerLiteral, rest: string): string {
    [if v.negative then '-' else '+'] + Counted(|v.magnitude|, ':', HexOctets(v.magnitude, rest))
  }

  function RenderSymbol(s: SymbolName, rest: string): string {
    Counted(s.id, '@', RenderText(s.spelling, rest))
  }

  function ValueCode(kind: ValueKind): nat {
    match kind
    case IntegerValue => 0
    case BooleanValue => 1
    case CharacterValue => 2
    case ParameterValue => 3
  }

  function RenderValue(v: TemplateValue, rest: string): string {
    Counted(ValueCode(v.kind), ':',
      match v.kind
      case IntegerValue => RenderInteger(v.integer, rest)
      case CharacterValue => RenderInteger(v.integer, rest)
      case BooleanValue => [if v.boolean then '1' else '0'] + rest
      case ParameterValue => RenderSymbol(v.parameter, rest))
  }

  function RenderArgument(a: Argument, rest: string): string {
    if !a.isType then ['v'] + RenderValue(a.value, rest)
    else if a.payload.Some? then ['t'] + RenderType(a.payload.value, rest)
    else ['t'] + ("null" + rest)
  }

  function RenderArguments(s: seq<Argument>, rest: string): string {
    if s == [] then ['>'] + rest else RenderArgument(s[0], [';'] + RenderArguments(s[1..], rest))
  }

  function RenderTypes(s: seq<Type>, rest: string): string {
    if s == [] then rest else RenderType(s[0], RenderTypes(s[1..], rest))
  }

  function RenderType(t: Type, rest: string): string {
    var end := ['}'] + rest;
    ['T'] + Counted(t.kind, '{',
      if t.kind == NAMED then Counted(|t.name|, ':', RenderName(t.name, ['<'] + RenderArguments(t.arguments, end)))
      else if t.kind == FUNCTION then Counted(|t.components|, ':', RenderTypes(t.components, end))
      else if t.kind == TYPE_VARIABLE then RenderSymbol(t.variable, end)
      else end)
  }

  function RenderIdentity(t: Type): string {
    RenderType(t, "")
  }

  // ---------------------------------------------------------------------------
  // Reading back

  function ValueOf(s: string): int
    requires forall i :: 0 <= i < |s| ==> IsDigit(s[i])
  {
    if s == [] then 0 else ValueOf(s[..|s| - 1]) * 10 + (s[|s| - 1] as int - '0' as int)
  }

  lemma {:induction false} DecimalValue(n: nat)
    ensures ValueOf(Decimal(n)) == n
  {
    var s := Decimal(n);
    if n >= 10 {
      DecimalValue(n / 10);
      assert s[..|s| - 1] == Decimal(n / 10);
    } else {
      assert s[..|s| - 1] == [];
    }
  }

  lemma DigitsGoOn(a: string, b: string, end: char, x: string, y: string)
    requires !IsDigit(end) && |a| < |b| && forall i :: 0 <= i < |b| ==> IsDigit(b[i])
    ensures a + ([end] + x) != b + ([end] + y)
  {
    assert (a + ([end] + x))[|a|] == end;
    assert (b + ([end] + y))[|a|] == b[|a|];
  }

  /** A number ends at the first character that is no digit. */
  lemma CountedApart(n: nat, m: nat, end: char, x: string, y: string)
    requires !IsDigit(end) && Counted(n, end, x) == Counted(m, end, y)
    ensures n == m && x == y
  {
    var a, b := Decimal(n), Decimal(m);
    var u, v := a + ([end] + x), b + ([end] + y);
    if |a| < |b| {
      DigitsGoOn(a, b, end, x, y);
    }
    if |b| < |a| {
      DigitsGoOn(b, a, end, y, x);
    }
    assert a == u[..|a|] && b == v[..|b|];
    assert [end] + x == u[|a|..] && [end] + y == v[|b|..];
    assert x == ([end] + x)[1..] && y == ([end] + y)[1..];
    DecimalValue(n);
    DecimalValue(m);
  }

  lemma HexApart(d: nat, e: nat)
    requires d < 16 && e < 16 && Hex(d) == Hex(e)
    ensures d == e
  {
  }

  lemma OneApart(c: char, d: char, x: string, y: string)
    requires [c] + x == [d] + y
    ensures c == d && x == y
  {
    assert ([c] + x)[0] == ([d] + y)[0];
    assert x == ([c] + x)[1..] && y == ([d] + y)[1..];
  }

  lemma SameHalves(p: nat, q: nat)
    requires p / 16 == q / 16 && p % 16 == q % 16
    ensures p == q
  {
  }

  lemma SixApart(p: nat, q: nat, x: string, y: string)
    requires p < 0x1000000 && q < 0x1000000 && SixDigits(p) + x == SixDigits(q) + y
    ensures p == q && x == y
  {
    var a, b := SixDigits(p), SixDigits(q);
    assert a == (a + x)[..6] && b == (b + y)[..6];
    assert x == (a + x)[6..] && y == (b + y)[6..];
    SameSixDigits(p, q);
  }

  lemma SameSixDigits(p: nat, q: nat)
    requires p < 0x1000000 && q < 0x1000000 && SixDigits(p) == SixDigits(q)
    ensures p == q
  {
    var a, b := SixDigits(p), SixDigits(q);
    assert forall i :: 0 <= i < 6 ==> a[i] == b[i];
    hide Hex;
    HexApart(p / 16 / 16 / 16 / 16 / 16, q / 16 / 16 / 16 / 16 / 16);
    HexApart(p / 16 / 16 / 16 / 16 % 16, q / 16 / 16 / 16 / 16 % 16);
    HexApart(p / 16 / 16 / 16 % 16, q / 16 / 16 / 16 % 16);
    HexApart(p / 16 / 16 % 16, q / 16 / 16 % 16);
    HexApart(p / 16 % 16, q / 16 % 16);
    HexApart(p % 16, q % 16);
    SameHalves(p / 16 / 16 / 16 / 16, q / 16 / 16 / 16 / 16);
    SameHalves(p / 16 / 16 / 16, q / 16 / 16 / 16);
    SameHalves(p / 16 / 16, q / 16 / 16);
    SameHalves(p / 16, q / 16);
    SameHalves(p, q);
  }

  lemma {:induction false} HexTextApart(s: Text, t: Text, x: string, y: string)
    requires |s| == |t| && HexText(s, x) == HexText(t, y)
    ensures TextMeaning(s) == TextMeaning(t) && x == y
  {
    if s != [] {
      SixApart(Point(s[0]), Point(t[0]), HexText(s[1..], x), HexText(t[1..], y));
      HexTextApart(s[1..], t[1..], x, y);
      var u, v := TextMeaning(s), TextMeaning(t);
      forall i | 0 <= i < |s|
        ensures u[i] == v[i]
      {
        if i > 0 {
          assert u[i] == TextMeaning(s[1..])[i - 1] && v[i] == TextMeaning(t[1..])[i - 1];
        }
      }
    }
  }

  lemma TextApart(s: Text, t: Text, x: string, y: string)
    requires RenderText(s, x) == RenderText(t, y)
    ensures TextMeaning(s) == TextMeaning(t) && x == y
  {
    CountedApart(|s|, |t|, ':', HexText(s, x), HexText(t, y));
    HexTextApart(s, t, x, y);
  }

  lemma {:induction false} NameApart(s: seq<Text>, t: seq<Text>, x: string, y: string)
    requires |s| == |t| && RenderName(s, x) == RenderName(t, y)
    ensures NameMeaning(s) == NameMeaning(t) && x == y
  {
    hide RenderText, TextMeaning;
    if s != [] {
      TextApart(s[0], t[0], RenderName(s[1..], x), RenderName(t[1..], y));
      NameApart(s[1..], t[1..], x, y);
      var u, v := NameMeaning(s), NameMeaning(t);
      forall i | 0 <= i < |s|
        ensures u[i] == v[i]
      {
        if i > 0 {
          assert u[i] == NameMeaning(s[1..])[i - 1] && v[i] == NameMeaning(t[1..])[i - 1];
        }
      }
    }
  }

  lemma {:induction false} OctetsApart(s: seq<nat>, t: seq<nat>, x: string, y: string)
    requires |s| == |t| && HexOctets(s, x) == HexOctets(t, y)
    ensures IntegerMeaning(IntegerLiteral(false, s)) == IntegerMeaning(IntegerLiteral(false, t)) && x == y
  {
    if s != [] {
      var p, q := s[0] % 256, t[0] % 256;
      var a, b := [Hex(p / 16), Hex(p % 16)], [Hex(q / 16), Hex(q % 16)];
      var u, v := HexOctets(s[1..], x), HexOctets(t[1..], y);
      assert a + u == b + v;
      assert a == (a + u)[..2] && b == (b + v)[..2] && u == (a + u)[2..] && v == (b + v)[2..];
      HexApart(p / 16, q / 16);
      HexApart(p % 16, q % 16);
      assert p == p / 16 * 16 + p % 16 && q == q / 16 * 16 + q % 16;
      OctetsApart(s[1..], t[1..], x, y);
      var m, n := IntegerMeaning(IntegerLiteral(false, s)).magnitude,
          IntegerMeaning(IntegerLiteral(false, t)).magnitude;
      forall i | 0 <= i < |s|
        ensures m[i] == n[i]
      {
        if i > 0 {
          assert m[i] == IntegerMeaning(IntegerLiteral(false, s[1..])).magnitude[i - 1];
          assert n[i] == IntegerMeaning(IntegerLiteral(false, t[1..])).magnitude[i - 1];
        }
      }
    }
  }

  lemma IntegerApart(a: IntegerLiteral, b: IntegerLiteral, x: string, y: string)
    requires RenderInteger(a, x) == RenderInteger(b, y)
    ensures IntegerMeaning(a) == IntegerMeaning(b) && x == y
  {
    hide Counted, HexOctets;
    OneApart(if a.negative then '-' else '+', if b.negative then '-' else '+',
             Counted(|a.magnitude|, ':', HexOctets(a.magnitude, x)),
                 Counted(|b.magnitude|, ':', HexOctets(b.magnitude, y)));
    CountedApart(|a.magnitude|, |b.magnitude|, ':', HexOctets(a.magnitude, x), HexOctets(b.magnitude, y));
    OctetsApart(a.magnitude, b.magnitude, x, y);
  }

  lemma SymbolApart(a: SymbolName, b: SymbolName, x: string, y: string)
    requires RenderSymbol(a, x) == RenderSymbol(b, y)
    ensures SymbolMeaning(a) == SymbolMeaning(b) && x == y
  {
    hide RenderText, TextMeaning;
    CountedApart(a.id, b.id, '@', RenderText(a.spelling, x), RenderText(b.spelling, y));
    TextApart(a.spelling, b.spelling, x, y);
  }

  function ValueBody(v: TemplateValue, rest: string): string {
    match v.kind
    case IntegerValue => RenderInteger(v.integer, rest)
    case CharacterValue => RenderInteger(v.integer, rest)
    case BooleanValue => [if v.boolean then '1' else '0'] + rest
    case ParameterValue => RenderSymbol(v.parameter, rest)
  }

  lemma ValueApart(a: TemplateValue, b: TemplateValue, x: string, y: string)
    requires RenderValue(a, x) == RenderValue(b, y)
    ensures ValueMeaning(a) == ValueMeaning(b) && x == y
  {
    hide Counted, RenderInteger, RenderSymbol, IntegerMeaning, SymbolMeaning;
    CountedApart(ValueCode(a.kind), ValueCode(b.kind), ':', ValueBody(a, x), ValueBody(b, y));
    assert a.kind == b.kind;
    match a.kind
    case IntegerValue => IntegerApart(a.integer, b.integer, x, y);
    case CharacterValue => IntegerApart(a.integer, b.integer, x, y);
    case BooleanValue => OneApart(if a.boolean then '1' else '0', if b.boolean then '1' else '0', x, y);
    case ParameterValue => SymbolApart(a.parameter, b.parameter, x, y);
  }

  lemma {:induction false} ArgumentApart(a: Argument, b: Argument, x: string, y: string)
    requires RenderArgument(a, x) == RenderArgument(b, y)
    ensures ArgumentMeaning(a) == ArgumentMeaning(b) && x == y
    decreases a
  {
    hide RenderValue, RenderType, ValueMeaning, Meaning;
    OneApart(if a.isType then 't' else 'v', if b.isType then 't' else 'v', ArgumentBody(a, x), ArgumentBody(b, y));
    if !a.isType {
      ValueApart(a.value, b.value, x, y);
    } else if a.payload.Some? && b.payload.Some? {
      TypeApart(a.payload.value, b.payload.value, x, y);
    } else if a.payload.None? && b.payload.None? {
      assert x == ("null" + x)[4..] && y == ("null" + y)[4..];
    } else {
      NullIsNoType(if a.payload.Some? then a.payload.value else b.payload.value, if a.payload.Some? then x else y,
                   if a.payload.Some? then y else x);
    }
  }

  function ArgumentBody(a: Argument, rest: string): string {
    if !a.isType then RenderValue(a.value, rest)
    else if a.payload.Some? then RenderType(a.payload.value, rest)
    else "null" + rest
  }

  lemma NullIsNoType(t: Type, rest: string, other: string)
    ensures RenderType(t, rest) != "null" + other
  {
    assert RenderType(t, rest)[0] == 'T';
    assert ("null" + other)[0] == 'n';
  }

  lemma ArgumentsGoOn(a: Argument, rest: string, other: string)
    ensures RenderArgument(a, rest) != ['>'] + other
  {
    assert RenderArgument(a, rest)[0] != '>';
    assert (['>'] + other)[0] == '>';
  }

  lemma {:induction false} ArgumentsApart(s: seq<Argument>, t: seq<Argument>, x: string, y: string)
    requires RenderArguments(s, x) == RenderArguments(t, y)
    ensures ArgumentsMeaning(s) == ArgumentsMeaning(t) && x == y
    decreases s
  {
    hide RenderArgument, ArgumentMeaning;
    if s == [] && t == [] {
      OneApart('>', '>', x, y);
    } else if s == [] {
      ArgumentsGoOn(t[0], [';'] + RenderArguments(t[1..], y), x);
    } else if t == [] {
      ArgumentsGoOn(s[0], [';'] + RenderArguments(s[1..], x), y);
    } else {
      ArgumentApart(s[0], t[0], [';'] + RenderArguments(s[1..], x), [';'] + RenderArguments(t[1..], y));
      OneApart(';', ';', RenderArguments(s[1..], x), RenderArguments(t[1..], y));
      ArgumentsApart(s[1..], t[1..], x, y);
    }
  }

  lemma {:induction false} TypesApart(s: seq<Type>, t: seq<Type>, x: string, y: string)
    requires |s| == |t| && RenderTypes(s, x) == RenderTypes(t, y)
    ensures TypesMeaning(s) == TypesMeaning(t) && x == y
    decreases s
  {
    hide RenderType, Meaning;
    if s != [] {
      TypeApart(s[0], t[0], RenderTypes(s[1..], x), RenderTypes(t[1..], y));
      TypesApart(s[1..], t[1..], x, y);
    }
  }

  function TypeBody(t: Type, rest: string): string {
    var end := ['}'] + rest;
    if t.kind == NAMED then Counted(|t.name|, ':', RenderName(t.name, ['<'] + RenderArguments(t.arguments, end)))
    else if t.kind == FUNCTION then Counted(|t.components|, ':', RenderTypes(t.components, end))
    else if t.kind == TYPE_VARIABLE then RenderSymbol(t.variable, end)
    else end
  }

  /** Whatever follows, two renderings that agree come from types that mean the same. */
  lemma {:induction false} TypeApart(s: Type, t: Type, x: string, y: string)
    requires RenderType(s, x) == RenderType(t, y)
    ensures Meaning(s) == Meaning(t) && x == y
    decreases s
  {
    hide Counted, RenderName, RenderArguments, RenderTypes, RenderSymbol, NameMeaning, ArgumentsMeaning,
        TypesMeaning, SymbolMeaning;
    OneApart('T', 'T', Counted(s.kind, '{', TypeBody(s, x)), Counted(t.kind, '{', TypeBody(t, y)));
    CountedApart(s.kind, t.kind, '{', TypeBody(s, x), TypeBody(t, y));
    var u, v := ['}'] + x, ['}'] + y;
    if s.kind == NAMED {
      var p, q := ['<'] + RenderArguments(s.arguments, u), ['<'] + RenderArguments(t.arguments, v);
      CountedApart(|s.name|, |t.name|, ':', RenderName(s.name, p), RenderName(t.name, q));
      NameApart(s.name, t.name, p, q);
      OneApart('<', '<', RenderArguments(s.arguments, u), RenderArguments(t.arguments, v));
      ArgumentsApart(s.arguments, t.arguments, u, v);
    } else if s.kind == FUNCTION {
      CountedApart(|s.components|, |t.components|, ':', RenderTypes(s.components, u), RenderTypes(t.components, v));
      TypesApart(s.components, t.components, u, v);
    } else if s.kind == TYPE_VARIABLE {
      SymbolApart(s.variable, t.variable, u, v);
    }
    OneApart('}', '}', x, y);
  }

  // ---------------------------------------------------------------------------
  // The other direction

  lemma {:induction false} HexTextSame(s: Text, t: Text, rest: string)
    requires TextMeaning(s) == TextMeaning(t)
    ensures HexText(s, rest) == HexText(t, rest)
  {
    assert |TextMeaning(s)| == |TextMeaning(t)|;
    if s != [] {
      assert TextMeaning(s)[0] == TextMeaning(t)[0];
      assert TextMeaning(s[1..]) == TextMeaning(s)[1..] && TextMeaning(t[1..]) == TextMeaning(t)[1..];
      HexTextSame(s[1..], t[1..], rest);
    }
  }

  lemma {:induction false} NameSame(s: seq<Text>, t: seq<Text>, rest: string)
    requires NameMeaning(s) == NameMeaning(t)
    ensures |s| == |t| && RenderName(s, rest) == RenderName(t, rest)
  {
    assert |NameMeaning(s)| == |NameMeaning(t)|;
    if s != [] {
      assert NameMeaning(s)[0] == NameMeaning(t)[0];
      assert |TextMeaning(s[0])| == |TextMeaning(t[0])|;
      assert NameMeaning(s[1..]) == NameMeaning(s)[1..] && NameMeaning(t[1..]) == NameMeaning(t)[1..];
      NameSame(s[1..], t[1..], rest);
      HexTextSame(s[0], t[0], RenderName(s[1..], rest));
    }
  }

  lemma {:induction false} OctetsSame(s: seq<nat>, t: seq<nat>, rest: string)
    requires |s| == |t| && forall i :: 0 <= i < |s| ==> s[i] % 256 == t[i] % 256
    ensures HexOctets(s, rest) == HexOctets(t, rest)
  {
    if s != [] {
      OctetsSame(s[1..], t[1..], rest);
    }
  }

  lemma IntegerSame(a: IntegerLiteral, b: IntegerLiteral, rest: string)
    requires IntegerMeaning(a) == IntegerMeaning(b)
    ensures RenderInteger(a, rest) == RenderInteger(b, rest)
  {
    var m, n := IntegerMeaning(a).magnitude, IntegerMeaning(b).magnitude;
    assert |m| == |n|;
    forall i | 0 <= i < |a.magnitude|
      ensures a.magnitude[i] % 256 == b.magnitude[i] % 256
    {
      assert m[i] == n[i];
    }
    OctetsSame(a.magnitude, b.magnitude, rest);
  }

  lemma SymbolSame(a: SymbolName, b: SymbolName, rest: string)
    requires SymbolMeaning(a) == SymbolMeaning(b)
    ensures RenderSymbol(a, rest) == RenderSymbol(b, rest)
  {
    HexTextSame(a.spelling, b.spelling, rest);
    assert |TextMeaning(a.spelling)| == |TextMeaning(b.spelling)|;
  }

  lemma ValueSame(a: TemplateValue, b: TemplateValue, rest: string)
    requires ValueMeaning(a) == ValueMeaning(b)
    ensures RenderValue(a, rest) == RenderValue(b, rest)
  {
    hide RenderInteger, RenderSymbol, IntegerMeaning, SymbolMeaning;
    match a.kind
    case IntegerValue => IntegerSame(a.integer, b.integer, rest);
    case CharacterValue => IntegerSame(a.integer, b.integer, rest);
    case BooleanValue =>
    case ParameterValue => SymbolSame(a.parameter, b.parameter, rest);
  }

  lemma {:induction false} ArgumentsSame(s: seq<Argument>, t: seq<Argument>, rest: string)
    requires ArgumentsMeaning(s) == ArgumentsMeaning(t)
    ensures RenderArguments(s, rest) == RenderArguments(t, rest)
    decreases s
  {
    hide Meaning, ValueMeaning, RenderType, RenderValue;
    ArgumentsSize(s);
    ArgumentsSize(t);
    if s != [] {
      var m, n := ArgumentsMeaning(s), ArgumentsMeaning(t);
      assert m[0] == n[0] && ArgumentsMeaning(s[1..]) == m[1..] && ArgumentsMeaning(t[1..]) == n[1..];
      ArgumentsSame(s[1..], t[1..], rest);
      ArgumentSame(s[0], t[0], [';'] + RenderArguments(s[1..], rest));
    }
  }

  lemma {:induction false} ArgumentSame(a: Argument, b: Argument, rest: string)
    requires ArgumentMeaning(a) == ArgumentMeaning(b)
    ensures RenderArgument(a, rest) == RenderArgument(b, rest)
    decreases a
  {
    hide Meaning, ValueMeaning, RenderType, RenderValue;
    if a.isType && a.payload.Some? {
      TypeSame(a.payload.value, b.payload.value, rest);
    } else if !a.isType {
      ValueSame(a.value, b.value, rest);
    }
  }

  lemma {:induction false} ArgumentsSize(s: seq<Argument>)
    ensures |ArgumentsMeaning(s)| == |s|
  {
    if s != [] {
      ArgumentsSize(s[1..]);
    }
  }

  lemma {:induction false} TypesSame(s: seq<Type>, t: seq<Type>, rest: string)
    requires TypesMeaning(s) == TypesMeaning(t)
    ensures |s| == |t| && RenderTypes(s, rest) == RenderTypes(t, rest)
    decreases s
  {
    hide Meaning, RenderType;
    TypesSize(s);
    TypesSize(t);
    if s != [] {
      var m, n := TypesMeaning(s), TypesMeaning(t);
      assert m[0] == n[0] && TypesMeaning(s[1..]) == m[1..] && TypesMeaning(t[1..]) == n[1..];
      TypesSame(s[1..], t[1..], rest);
      TypeSame(s[0], t[0], RenderTypes(s[1..], rest));
    }
  }

  lemma {:induction false} TypesSize(s: seq<Type>)
    ensures |TypesMeaning(s)| == |s|
  {
    if s != [] {
      TypesSize(s[1..]);
    }
  }

  lemma {:induction false} TypeSame(s: Type, t: Type, rest: string)
    requires Meaning(s) == Meaning(t)
    ensures RenderType(s, rest) == RenderType(t, rest)
    decreases s
  {
    hide RenderName, RenderArguments, RenderTypes, RenderSymbol, NameMeaning, ArgumentsMeaning, TypesMeaning,
        SymbolMeaning;
    var end := ['}'] + rest;
    if s.kind == NAMED {
      ArgumentsSame(s.arguments, t.arguments, end);
      NameSame(s.name, t.name, ['<'] + RenderArguments(s.arguments, end));
    } else if s.kind == FUNCTION {
      TypesSame(s.components, t.components, end);
    } else if s.kind == TYPE_VARIABLE {
      SymbolSame(s.variable, t.variable, end);
    }
  }

  /** Two types have the same identity exactly when they mean the same. */
  lemma IdentityIsMeaning(s: Type, t: Type)
    ensures RenderIdentity(s) == RenderIdentity(t) <==> Meaning(s) == Meaning(t)
  {
    hide RenderType, Meaning;
    if RenderIdentity(s) == RenderIdentity(t) {
      TypeApart(s, t, "", "");
    }
    if Meaning(s) == Meaning(t) {
      TypeSame(s, t, "");
    }
  }

  /** A type and the same with payload that its kind does not use have one identity. */
  lemma SparePayloadIsNotIdentity()
    ensures UNIT != UNIT.(name := [[]]) && RenderIdentity(UNIT) == RenderIdentity(UNIT.(name := [[]]))
  {
    IdentityIsMeaning(UNIT, UNIT.(name := [[]]));
  }

  // ---------------------------------------------------------------------------
  // The emitter: the same text, appended to a buffer

  lemma Joined(a: string, b: string, c: string)
    ensures (a + b) + c == a + (b + c)
  {
  }

  lemma CountedJoined(output: string, n: nat, end: char, rest: string)
    ensures (output + Decimal(n) + [end]) + rest == output + Counted(n, end, rest)
  {
    assert (output + Decimal(n) + [end]) + rest == output + (Decimal(n) + ([end] + rest));
  }

  method AppendText(output: string, text: Text) returns (r: string)
    ensures forall rest: string :: r + rest == output + RenderText(text, rest)
  {
    r := output + Decimal(|text|) + [':'];
    ghost var start := r;
    assert text[0..] == text;
    for i := 0 to |text|
      invariant forall rest: string :: r + HexText(text[i..], rest) == start + HexText(text, rest)
    {
      ghost var before := r;
      assert text[i..][1..] == text[i + 1..];
      r := r + SixDigits(Point(text[i]));
      forall rest: string
        ensures r + HexText(text[i + 1..], rest) == start + HexText(text, rest)
      {
        Joined(before, SixDigits(Point(text[i])), HexText(text[i + 1..], rest));
        assert before + HexText(text[i..], rest) == start + HexText(text, rest);
      }
    }
    assert text[|text|..] == [];
    forall rest: string
      ensures r + rest == output + RenderText(text, rest)
    {
      assert r + HexText(text[|text|..], rest) == start + HexText(text, rest);
      CountedJoined(output, |text|, ':', HexText(text, rest));
    }
  }

  method AppendInteger(output: string, v: IntegerLiteral) returns (r: string)
    ensures forall rest: string :: r + rest == output + RenderInteger(v, rest)
  {
    var sign := if v.negative then '-' else '+';
    r := output + [sign];
    ghost var signed := r;
    r := r + Decimal(|v.magnitude|) + [':'];
    ghost var start := r;
    var octets := v.magnitude;
    assert octets[0..] == octets;
    for i := 0 to |octets|
      invariant forall rest: string :: r + HexOctets(octets[i..], rest) == start + HexOctets(octets, rest)
    {
      ghost var before := r;
      assert octets[i..][1..] == octets[i + 1..];
      var pair := [Hex(octets[i] % 256 / 16), Hex(octets[i] % 256 % 16)];
      r := r + pair;
      forall rest: string
        ensures r + HexOctets(octets[i + 1..], rest) == start + HexOctets(octets, rest)
      {
        Joined(before, pair, HexOctets(octets[i + 1..], rest));
        assert before + HexOctets(octets[i..], rest) == start + HexOctets(octets, rest);
      }
    }
    assert octets[|octets|..] == [];
    forall rest: string
      ensures r + rest == output + RenderInteger(v, rest)
    {
      assert r + HexOctets(octets[|octets|..], rest) == start + HexOctets(octets, rest);
      CountedJoined(signed, |octets|, ':', HexOctets(octets, rest));
      Joined(output, [sign], Counted(|octets|, ':', HexOctets(octets, rest)));
    }
  }

  method AppendSymbol(output: string, s: SymbolName) returns (r: string)
    ensures forall rest: string :: r + rest == output + RenderSymbol(s, rest)
  {
    hide RenderText, Counted, Decimal;
    var start := output + Decimal(s.id) + ['@'];
    r := AppendText(start, s.spelling);
    forall rest: string
      ensures r + rest == output + RenderSymbol(s, rest)
    {
      CountedJoined(output, s.id, '@', RenderText(s.spelling, rest));
    }
  }

  method AppendValue(output: string, v: TemplateValue) returns (r: string)
    ensures forall rest: string :: r + rest == output + RenderValue(v, rest)
  {
    hide RenderInteger, RenderSymbol, Counted, Decimal;
    var start := output + Decimal(ValueCode(v.kind)) + [':'];
    match v.kind {
      case IntegerValue => r := AppendInteger(start, v.integer);
      case CharacterValue => r := AppendInteger(start, v.integer);
      case BooleanValue => r := start + [if v.boolean then '1' else '0'];
      case ParameterValue => r := AppendSymbol(start, v.parameter);
    }
    forall rest: string
      ensures r + rest == output + RenderValue(v, rest)
    {
      CountedJoined(output, ValueCode(v.kind), ':', ValueBody(v, rest));
      if v.kind == BooleanValue {
        Joined(start, [if v.boolean then '1' else '0'], rest);
      }
    }
  }

  method AppendArgument(output: string, a: Argument) returns (r: string)
    ensures forall rest: string :: r + rest == output + RenderArgument(a, rest)
    decreases a
  {
    hide RenderValue, RenderType;
    var start := output + [if a.isType then 't' else 'v'];
    if !a.isType {
      r := AppendValue(start, a.value);
    } else if a.payload.Some? {
      r := AppendType(start, a.payload.value);
    } else {
      r := start + "null";
    }
    forall rest: string
      ensures r + rest == output + RenderArgument(a, rest)
    {
      Joined(output, [if a.isType then 't' else 'v'], ArgumentBody(a, rest));
      if a.isType && a.payload.None? {
        Joined(start, "null", rest);
      }
    }
  }

  method AppendNamed(output: string, t: Type) returns (r: string)
    requires t.kind == NAMED
    ensures forall rest: string ::
      r + rest == output + Counted(|t.name|, ':', RenderName(t.name, ['<'] + RenderArguments(t.arguments, rest)))
    decreases t, 0
  {
    hide RenderText, Counted, Decimal, RenderArgument;
    var start := output + Decimal(|t.name|) + [':'];
    r := start;
    assert t.name[0..] == t.name;
    for i := 0 to |t.name|
      invariant forall rest: string :: r + RenderName(t.name[i..], rest) == start + RenderName(t.name, rest)
    {
      assert t.name[i..][1..] == t.name[i + 1..];
      ghost var before := r;
      r := AppendText(r, t.name[i]);
      forall rest: string
        ensures r + RenderName(t.name[i + 1..], rest) == start + RenderName(t.name, rest)
      {
        assert before + RenderName(t.name[i..], rest) == start + RenderName(t.name, rest);
      }
    }
    assert t.name[|t.name|..] == [];
    ghost var named := r;
    r := r + ['<'];
    ghost var begun := r;
    assert t.arguments[0..] == t.arguments;
    for i := 0 to |t.arguments|
      invariant forall rest: string ::
        r + RenderArguments(t.arguments[i..], rest) == begun + RenderArguments(t.arguments, rest)
    {
      assert t.arguments[i..][1..] == t.arguments[i + 1..];
      ghost var before := r;
      var written := AppendArgument(r, t.arguments[i]);
      r := written + [';'];
      forall rest: string
        ensures r + RenderArguments(t.arguments[i + 1..], rest) == begun + RenderArguments(t.arguments, rest)
      {
        Joined(written, [';'], RenderArguments(t.arguments[i + 1..], rest));
        assert before + RenderArguments(t.arguments[i..], rest) == begun + RenderArguments(t.arguments, rest);
      }
    }
    assert t.arguments[|t.arguments|..] == [];
    ghost var listed := r;
    r := r + ['>'];
    forall rest: string
      ensures r + rest == output + Counted(|t.name|, ':',
        RenderName(t.name, ['<'] + RenderArguments(t.arguments, rest)))
    {
      Joined(listed, ['>'], rest);
      assert listed + RenderArguments(t.arguments[|t.arguments|..], rest) == begun + RenderArguments(t.arguments, rest);
      var inner := ['<'] + RenderArguments(t.arguments, rest);
      Joined(named, ['<'], RenderArguments(t.arguments, rest));
      assert named + RenderName(t.name[|t.name|..], inner) == start + RenderName(t.name, inner);
      CountedJoined(output, |t.name|, ':', RenderName(t.name, inner));
    }
  }

  method AppendComponents(output: string, t: Type) returns (r: string)
    ensures forall rest: string :: r + rest == output + Counted(|t.components|, ':', RenderTypes(t.components, rest))
    decreases t, 0
  {
    hide Counted, Decimal, RenderType;
    var start := output + Decimal(|t.components|) + [':'];
    r := start;
    assert t.components[0..] == t.components;
    for i := 0 to |t.components|
      invariant forall rest: string ::
        r + RenderTypes(t.components[i..], rest) == start + RenderTypes(t.components, rest)
    {
      assert t.components[i..][1..] == t.components[i + 1..];
      ghost var before := r;
      r := AppendType(r, t.components[i]);
      forall rest: string
        ensures r + RenderTypes(t.components[i + 1..], rest) == start + RenderTypes(t.components, rest)
      {
        assert before + RenderTypes(t.components[i..], rest) == start + RenderTypes(t.components, rest);
      }
    }
    assert t.components[|t.components|..] == [];
    forall rest: string
      ensures r + rest == output + Counted(|t.components|, ':', RenderTypes(t.components, rest))
    {
      assert r + RenderTypes(t.components[|t.components|..], rest) == start + RenderTypes(t.components, rest);
      CountedJoined(output, |t.components|, ':', RenderTypes(t.components, rest));
    }
  }

  /** Append the rendering of a type to the buffer. */
  method AppendType(output: string, t: Type) returns (r: string)
    ensures forall rest: string :: r + rest == output + RenderType(t, rest)
    decreases t, 1
  {
    hide Counted, Decimal, RenderName, RenderArguments, RenderTypes, RenderSymbol;
    var begun := output + ['T'];
    var start := begun + Decimal(t.kind) + ['{'];
    var body := start;
    if t.kind == NAMED {
      body := AppendNamed(start, t);
    } else if t.kind == FUNCTION {
      body := AppendComponents(start, t);
    } else if t.kind == TYPE_VARIABLE {
      body := AppendSymbol(start, t.variable);
    }
    r := body + ['}'];
    forall rest: string
      ensures r + rest == output + RenderType(t, rest)
    {
      Joined(body, ['}'], rest);
      assert body + (['}'] + rest) == start + TypeBody(t, rest);
      CountedJoined(begun, t.kind, '{', TypeBody(t, rest));
      Joined(output, ['T'], Counted(t.kind, '{', TypeBody(t, rest)));
    }
  }

  method Identity(t: Type) returns (r: string)
    ensures r == RenderIdentity(t)
  {
    hide RenderType;
    r := AppendType("", t);
    ghost var nothing: string := "";
    ghost var text := RenderType(t, nothing);
    assert r + nothing == "" + text;
    assert r + nothing == r && "" + text == text;
  }
}
