/** The octets of the artifact wire, told without a writer or a reader: which octets stand for a
    value, in which order, and which values may be written at all. A writer succeeds exactly for
    those, with exactly these octets, and a reader accepts nothing else. */
module WireLayout {
  import opened Wrappers
  import opened TypeIdentity
  import opened WireFormat
  import opened WireTypes
  import opened CoreScalars
  import opened WireLiterals

  // ---------------------------------------------------------------------------
  // Fields

  /** One for true and zero for false. */
  function BooleanLayout(b: bool): seq<Octet> {
    [if b then 1 else 0]
  }

  /** Four octets, the least significant first. */
  function CountLayout(n: nat): seq<Octet> {
    LittleEndian(n, 4)
  }

  predicate CountAllowed(n: nat, maximum: nat) {
    n <= maximum && n < 0x1_0000_0000
  }

  function ScalarsLayout(text: Text): seq<Octet> {
    if text == [] then [] else LittleEndian(text[0], 4) + ScalarsLayout(text[1..])
  }

  /** No surrogates, and nothing beyond the last plane. */
  predicate AllScalars(text: Text) {
    forall i :: 0 <= i < |text| ==> text[i] < 0xd800 || 0xe000 <= text[i] < 0x11_0000
  }

  /** The number of scalars and then each of them in four octets. */
  function TextLayout(text: Text): seq<Octet> {
    CountLayout(|text|) + ScalarsLayout(text)
  }

  predicate TextAllowed(limits: Limits, text: Text) {
    CountAllowed(|text|, limits.maximumTextScalars) && AllScalars(text)
  }

  function TextsLayout(parts: seq<Text>): seq<Octet> {
    if parts == [] then [] else TextLayout(parts[0]) + TextsLayout(parts[1..])
  }

  predicate TextsAllowed(limits: Limits, parts: seq<Text>) {
    forall i :: 0 <= i < |parts| ==> TextAllowed(limits, parts[i])
  }

  function NameLayout(name: seq<Text>): seq<Octet> {
    CountLayout(|name|) + TextsLayout(name)
  }

  predicate NameAllowed(limits: Limits, name: seq<Text>) {
    CountAllowed(|name|, 65535) && TextsAllowed(limits, name)
  }

  /** The identity in eight octets and then the spelling. */
  function SymbolLayout(s: SymbolName): seq<Octet> {
    LittleEndian(s.id, 8) + TextLayout(s.spelling)
  }

  predicate SymbolAllowed(limits: Limits, s: SymbolName) {
    s.id != 0 && TextAllowed(limits, s.spelling)
  }

  function OctetsLayout(octets: seq<nat>): seq<Octet> {
    seq(|octets|, i requires 0 <= i < |octets| => octets[i] % 256)
  }

  function CountedLayout(octets: seq<nat>): seq<Octet> {
    CountLayout(|octets|) + OctetsLayout(octets)
  }

  /** Whether it is negative, and then the counted octets of its magnitude. */
  function IntegerLayout(v: IntegerLiteral): seq<Octet> {
    BooleanLayout(v.negative) + CountedLayout(v.magnitude)
  }

  predicate IntegerAllowed(limits: Limits, v: IntegerLiteral) {
    CountAllowed(|v.magnitude|, limits.maximumNumericBytes)
  }

  // ---------------------------------------------------------------------------
  // Types

  /** A tag from zero to three, and then the one field the tag stands for. */
  function ValueLayout(v: TemplateValue): seq<Octet> {
    match v.kind
    case IntegerValue => [0] + IntegerLayout(v.integer)
    case BooleanValue => [1] + BooleanLayout(v.boolean)
    case CharacterValue => [2] + IntegerLayout(v.integer)
    case ParameterValue => [3] + SymbolLayout(v.parameter)
  }

  predicate ValueAllowed(limits: Limits, v: TemplateValue) {
    match v.kind
    case IntegerValue => IsCanonical(v.integer) && IntegerAllowed(limits, v.integer)
    case BooleanValue => true
    case CharacterValue => IsCanonical(v.integer) && IntegerAllowed(limits, v.integer)
    case ParameterValue => SymbolAllowed(limits, v.parameter)
  }

  /** Zero and a type, or one and a value. */
  function ArgumentLayout(a: Argument): seq<Octet>
    decreases a
  {
    if !a.isType then [1] + ValueLayout(a.value)
    else if a.payload.Some? then [0] + TypeLayout(a.payload.value)
    else [0]
  }

  function ArgumentsLayout(s: seq<Argument>): seq<Octet>
    decreases s
  {
    if s == [] then [] else ArgumentLayout(s[0]) + ArgumentsLayout(s[1..])
  }

  function TypesLayout(s: seq<Type>): seq<Octet>
    decreases s
  {
    if s == [] then [] else TypeLayout(s[0]) + TypesLayout(s[1..])
  }

  /** The kind, and then what a function, a named type or a type variable has. */
  function TypeLayout(t: Type): seq<Octet>
    decreases t
  {
    [t.kind % 256] +
    match t.kind
    case 18 => CountLayout(|t.components|) + TypesLayout(t.components)
    case 19 => NameLayout(t.name) + (CountLayout(|t.arguments|) + ArgumentsLayout(t.arguments))
    case 20 => SymbolLayout(t.variable)
    case _ => []
  }

  predicate ArgumentAllowed(limits: Limits, a: Argument, depth: nat)
    decreases a
  {
    if !a.isType then ValueAllowed(limits, a.value)
    else a.payload.Some? && TypeAllowed(limits, a.payload.value, depth + 1)
  }

  predicate ArgumentsAllowed(limits: Limits, s: seq<Argument>, depth: nat)
    decreases s
  {
    s == [] || (ArgumentAllowed(limits, s[0], depth) && ArgumentsAllowed(limits, s[1..], depth))
  }

  predicate TypesAllowed(limits: Limits, s: seq<Type>, depth: nat)
    decreases s
  {
    s == [] || (TypeAllowed(limits, s[0], depth) && TypesAllowed(limits, s[1..], depth))
  }

  /** Nested no deeper than the limit, a function with a result, a named type without components, and
      any other kind, which is a scalar, without payload. */
  predicate TypeAllowed(limits: Limits, t: Type, depth: nat)
    decreases t
  {
    && depth <= limits.maximumTypeDepth
    && match t.kind
       case 18 =>
         && t.components != [] && CountAllowed(|t.components|, limits.maximumParameters + 1)
         && TypesAllowed(limits, t.components, depth + 1)
       case 19 =>
         && t.components == [] && NameAllowed(limits, t.name)
         && CountAllowed(|t.arguments|, limits.maximumOperands) && ArgumentsAllowed(limits, t.arguments, depth)
       case 20 => SymbolAllowed(limits, t.variable)
       case _ => t.name == [] && t.components == [] && t.arguments == [] && t.variable.id == 0
  }

  // ---------------------------------------------------------------------------
  // Literals

  /** A tag from zero to four, and then the payload. */
  function LiteralLayout(l: Literal): seq<Octet> {
    match l
    case EmptyPayload => [0]
    case BooleanPayload(b) => [1] + BooleanLayout(b)
    case Signed64(n) => [2] + IntegerLayout(FromSigned(n))
    case Signed32(n) => [2] + IntegerLayout(FromSigned(n))
    case IntegerPayload(v) => [2] + IntegerLayout(v)
    case FloatingPayload(s) => [3] + CountedLayout(s)
    case TextPayload(s) => [4] + TextLayout(s)
  }

  predicate LiteralAllowed(limits: Limits, l: Literal, t: Type) {
    && Accepts(l, t)
    && match l
       case EmptyPayload => true
       case BooleanPayload(_) => true
       case Signed64(n) => IntegerAllowed(limits, FromSigned(n))
       case Signed32(n) => IntegerAllowed(limits, FromSigned(n))
       case IntegerPayload(v) => IntegerAllowed(limits, v)
       case FloatingPayload(s) => CountAllowed(|s|, limits.maximumNumericBytes)
       case TextPayload(s) => TextAllowed(limits, s)
  }

  // ---------------------------------------------------------------------------
  // What a write comes to

  predicate Ready(limits: Limits, o: Output) {
    o.failure.None? && |o.bytes| <= limits.maximumWireBytes
  }

  /** The write succeeds exactly when it is allowed and has room, and then appends the layout. */
  predicate Appends(limits: Limits, o: Output, after: Output, allowed: bool, layout: seq<Octet>) {
    && (after.failure.None? <==> allowed && |o.bytes| + |layout| <= limits.maximumWireBytes)
    && (after.failure.None? ==> after.bytes == o.bytes + layout)
  }

  /** One write and then another. */
  lemma Both(limits: Limits, o: Output, middle: Output, after: Output, first: bool, a: seq<Octet>, second: bool,
      b: seq<Octet>)
    requires Ready(limits, o) && Grows(limits, o, middle) && Grows(limits, middle, after)
    requires Appends(limits, o, middle, first, a)
    requires Ready(limits, middle) ==> Appends(limits, middle, after, second, b)
    ensures Appends(limits, o, after, first && second, a + b) && Grows(limits, o, after)
  {
    if middle.failure.None? {
      assert o.bytes + a + b == o.bytes + (a + b);
    }
  }

  lemma Nothing(limits: Limits, o: Output)
    requires Ready(limits, o)
    ensures Appends(limits, o, o, true, []) && Grows(limits, o, o)
  {
    assert o.bytes + [] == o.bytes;
  }

  lemma Refused(limits: Limits, o: Output, kind: ErrorKind, layout: seq<Octet>)
    ensures Appends(limits, o, Refuse(o, kind), false, layout) && Grows(limits, o, Refuse(o, kind))
  {
  }

  lemma ByteAppends(limits: Limits, o: Output, value: nat)
    requires Ready(limits, o)
    ensures Appends(limits, o, PutByte(limits, o, value), true, [value % 256])
  {
  }

  lemma WordAppends(limits: Limits, o: Output, value: nat, width: nat)
    requires Ready(limits, o)
    ensures Appends(limits, o, PutWord(limits, o, value, width), true, LittleEndian(value, width))
  {
    hide LittleEndian;
  }

  lemma BooleanAppends(limits: Limits, o: Output, b: bool)
    requires Ready(limits, o)
    ensures Appends(limits, o, PutBoolean(limits, o, b), true, BooleanLayout(b))
  {
  }

  lemma CountAppends(limits: Limits, o: Output, n: nat, maximum: nat)
    requires Ready(limits, o)
    ensures Appends(limits, o, PutCount(limits, o, n, maximum), CountAllowed(n, maximum), CountLayout(n))
  {
    hide LittleEndian;
  }

  lemma {:induction false} ScalarsAppend(limits: Limits, o: Output, text: Text)
    requires Ready(limits, o)
    ensures Appends(limits, o, PutScalars(limits, o, text), AllScalars(text), ScalarsLayout(text))
    decreases text
  {
    hide LittleEndian, PutWord, Appends, Ready, Grows;
    if text == [] {
      Nothing(limits, o);
    } else {
      var first := PutWord(limits, o, text[0], 4);
      assert AllScalars(text) <==> IsUnicodeScalar(text[0]) && AllScalars(text[1..]) by {
        assert text == [text[0]] + text[1..];
      }
      if IsUnicodeScalar(text[0]) {
        WordAppends(limits, o, text[0], 4);
        if Ready(limits, first) {
          ScalarsAppend(limits, first, text[1..]);
        }
        Both(limits, o, first, PutScalars(limits, o, text), true, LittleEndian(text[0], 4), AllScalars(text[1..]),
          ScalarsLayout(text[1..]));
      } else {
        Refused(limits, o, InvalidScalar, ScalarsLayout(text));
      }
    }
  }

  lemma TextAppends(limits: Limits, o: Output, text: Text)
    requires Ready(limits, o)
    ensures Appends(limits, o, PutText(limits, o, text), TextAllowed(limits, text), TextLayout(text))
  {
    hide PutCount, PutScalars, Appends, Ready, Grows, CountLayout, ScalarsLayout, AllScalars;
    var counted := PutCount(limits, o, |text|, limits.maximumTextScalars);
    CountAppends(limits, o, |text|, limits.maximumTextScalars);
    if Ready(limits, counted) {
      ScalarsAppend(limits, counted, text);
    }
    Both(limits, o, counted, PutText(limits, o, text), CountAllowed(|text|, limits.maximumTextScalars),
      CountLayout(|text|), AllScalars(text), ScalarsLayout(text));
  }

  lemma {:induction false} TextsAppend(limits: Limits, o: Output, parts: seq<Text>)
    requires Ready(limits, o)
    ensures Appends(limits, o, PutTexts(limits, o, parts), TextsAllowed(limits, parts), TextsLayout(parts))
    decreases parts
  {
    hide PutText, Appends, Ready, Grows, TextLayout, TextAllowed;
    if parts == [] {
      Nothing(limits, o);
    } else {
      var first := PutText(limits, o, parts[0]);
      assert TextsAllowed(limits, parts) <==> TextAllowed(limits, parts[0]) && TextsAllowed(limits, parts[1..]) by {
        assert parts == [parts[0]] + parts[1..];
      }
      TextAppends(limits, o, parts[0]);
      if Ready(limits, first) {
        TextsAppend(limits, first, parts[1..]);
      }
      Both(limits, o, first, PutTexts(limits, o, parts), TextAllowed(limits, parts[0]), TextLayout(parts[0]),
        TextsAllowed(limits, parts[1..]), TextsLayout(parts[1..]));
    }
  }

  lemma NameAppends(limits: Limits, o: Output, name: seq<Text>)
    requires Ready(limits, o)
    ensures Appends(limits, o, PutName(limits, o, name), NameAllowed(limits, name), NameLayout(name))
  {
    hide PutCount, PutTexts, Appends, Ready, Grows, CountLayout, TextsLayout, TextsAllowed;
    var counted := PutCount(limits, o, |name|, MAXIMUM_NAME_PARTS);
    CountAppends(limits, o, |name|, MAXIMUM_NAME_PARTS);
    if Ready(limits, counted) {
      TextsAppend(limits, counted, name);
    }
    Both(limits, o, counted, PutName(limits, o, name), CountAllowed(|name|, MAXIMUM_NAME_PARTS),
      CountLayout(|name|), TextsAllowed(limits, name), TextsLayout(name));
  }

  lemma SymbolAppends(limits: Limits, o: Output, s: SymbolName)
    requires Ready(limits, o)
    ensures Appends(limits, o, PutSymbol(limits, o, s), SymbolAllowed(limits, s), SymbolLayout(s))
  {
    hide LittleEndian, PutWord, PutText, Appends, Ready, Grows, TextLayout, TextAllowed;
    if s.id == 0 {
      Refused(limits, o, InvalidSymbol, SymbolLayout(s));
    } else {
      var first := PutWord(limits, o, s.id, 8);
      WordAppends(limits, o, s.id, 8);
      if Ready(limits, first) {
        TextAppends(limits, first, s.spelling);
      }
      Both(limits, o, first, PutSymbol(limits, o, s), true, LittleEndian(s.id, 8), TextAllowed(limits, s.spelling),
        TextLayout(s.spelling));
    }
  }

  lemma {:induction false} OctetsAppend(limits: Limits, o: Output, octets: seq<nat>)
    requires Ready(limits, o)
    ensures Appends(limits, o, PutOctets(limits, o, octets), true, OctetsLayout(octets))
    decreases octets
  {
    hide PutByte, Appends, Ready, Grows;
    if octets == [] {
      Nothing(limits, o);
    } else {
      var first := PutByte(limits, o, octets[0]);
      ByteAppends(limits, o, octets[0]);
      if Ready(limits, first) {
        OctetsAppend(limits, first, octets[1..]);
      }
      Both(limits, o, first, PutOctets(limits, o, octets), true, [octets[0] % 256], true, OctetsLayout(octets[1..]));
      assert OctetsLayout(octets) == [octets[0] % 256] + OctetsLayout(octets[1..]);
    }
  }

  lemma CountedAppends(limits: Limits, o: Output, octets: seq<nat>)
    requires Ready(limits, o)
    ensures Appends(limits, o, PutCounted(limits, o, octets), CountAllowed(|octets|, limits.maximumNumericBytes),
      CountedLayout(octets))
  {
    hide PutCount, PutOctets, Appends, Ready, Grows, CountLayout, OctetsLayout;
    var counted := PutCount(limits, o, |octets|, limits.maximumNumericBytes);
    CountAppends(limits, o, |octets|, limits.maximumNumericBytes);
    if Ready(limits, counted) {
      OctetsAppend(limits, counted, octets);
    }
    Both(limits, o, counted, PutCounted(limits, o, octets), CountAllowed(|octets|, limits.maximumNumericBytes),
      CountLayout(|octets|), true, OctetsLayout(octets));
  }

  lemma IntegerAppends(limits: Limits, o: Output, v: IntegerLiteral)
    requires Ready(limits, o)
    ensures Appends(limits, o, PutInteger(limits, o, v), IntegerAllowed(limits, v), IntegerLayout(v))
  {
    hide PutBoolean, PutCounted, Appends, Ready, Grows, BooleanLayout, CountedLayout;
    var sign := PutBoolean(limits, o, v.negative);
    BooleanAppends(limits, o, v.negative);
    if Ready(limits, sign) {
      CountedAppends(limits, sign, v.magnitude);
    }
    Both(limits, o, sign, PutInteger(limits, o, v), true, BooleanLayout(v.negative), IntegerAllowed(limits, v),
      CountedLayout(v.magnitude));
  }

  // ---------------------------------------------------------------------------
  // Types

  /** A tag and then a field. */
  lemma TagThen(limits: Limits, o: Output, tag: Octet, after: Output, allowed: bool, layout: seq<Octet>)
    requires Ready(limits, o) && Grows(limits, PutByte(limits, o, tag), after)
    requires Ready(limits, PutByte(limits, o, tag)) ==>
      Appends(limits, PutByte(limits, o, tag), after, allowed, layout)
    ensures Appends(limits, o, after, allowed, [tag] + layout)
  {
    hide PutByte, Appends, Ready, Grows;
    ByteAppends(limits, o, tag);
    Both(limits, o, PutByte(limits, o, tag), after, true, [tag], allowed, layout);
  }

  lemma ValueAppends(limits: Limits, o: Output, v: TemplateValue)
    requires Ready(limits, o)
    ensures Appends(limits, o, PutValue(limits, o, v), ValueAllowed(limits, v), ValueLayout(v))
  {
    hide PutByte, PutBoolean, PutSymbol, PutInteger, Appends, Ready, Grows, IntegerLayout, SymbolLayout, BooleanLayout,
        IntegerAllowed, SymbolAllowed, IsCanonical;
    var after := PutValue(limits, o, v);
    var tag := PutByte(limits, o, ValueCode(v.kind));
    match v.kind
    case BooleanValue =>
      if Ready(limits, tag) {
        BooleanAppends(limits, tag, v.boolean);
      }
      TagThen(limits, o, 1, after, true, BooleanLayout(v.boolean));
    case ParameterValue =>
      if Ready(limits, tag) {
        SymbolAppends(limits, tag, v.parameter);
      }
      TagThen(limits, o, 3, after, SymbolAllowed(limits, v.parameter), SymbolLayout(v.parameter));
    case _ =>
      if !IsCanonical(v.integer) {
        Refused(limits, tag, InvalidInteger, IntegerLayout(v.integer));
      } else if Ready(limits, tag) {
        IntegerAppends(limits, tag, v.integer);
      }
      TagThen(limits, o, ValueCode(v.kind), after, IsCanonical(v.integer) && IntegerAllowed(limits, v.integer),
        IntegerLayout(v.integer));
  }

  lemma {:induction false} ArgumentAppends(limits: Limits, o: Output, a: Argument, depth: nat)
    requires Ready(limits, o)
    ensures Appends(limits, o, PutArgument(limits, o, a, depth), ArgumentAllowed(limits, a, depth), ArgumentLayout(a))
    decreases a
  {
    hide PutByte, PutValue, PutType, Appends, Ready, Grows, ValueLayout, TypeLayout, ValueAllowed, TypeAllowed;
    var after := PutArgument(limits, o, a, depth);
    var tag := PutByte(limits, o, if a.isType then 0 else 1);
    if !a.isType {
      if Ready(limits, tag) {
        ValueAppends(limits, tag, a.value);
      }
      TagThen(limits, o, 1, after, ValueAllowed(limits, a.value), ValueLayout(a.value));
    } else if a.payload.None? {
      Refused(limits, tag, InvalidModel, []);
      TagThen(limits, o, 0, after, false, []);
      assert [0] + [] == [0];
    } else {
      if Ready(limits, tag) {
        TypeAppends(limits, tag, a.payload.value, depth + 1);
      }
      TagThen(limits, o, 0, after, TypeAllowed(limits, a.payload.value, depth + 1), TypeLayout(a.payload.value));
    }
  }

  lemma {:induction false} ArgumentsAppend(limits: Limits, o: Output, s: seq<Argument>, depth: nat)
    requires Ready(limits, o)
    ensures Appends(limits, o, PutArguments(limits, o, s, depth), ArgumentsAllowed(limits, s, depth),
      ArgumentsLayout(s))
    decreases s
  {
    hide PutArgument, Appends, Ready, Grows, ArgumentLayout, ArgumentAllowed;
    if s == [] {
      Nothing(limits, o);
    } else {
      var first := PutArgument(limits, o, s[0], depth);
      ArgumentAppends(limits, o, s[0], depth);
      if Ready(limits, first) {
        ArgumentsAppend(limits, first, s[1..], depth);
      }
      Both(limits, o, first, PutArguments(limits, o, s, depth), ArgumentAllowed(limits, s[0], depth),
        ArgumentLayout(s[0]), ArgumentsAllowed(limits, s[1..], depth), ArgumentsLayout(s[1..]));
    }
  }

  lemma {:induction false} TypesAppend(limits: Limits, o: Output, s: seq<Type>, depth: nat)
    requires Ready(limits, o)
    ensures Appends(limits, o, PutTypes(limits, o, s, depth), TypesAllowed(limits, s, depth), TypesLayout(s))
    decreases s
  {
    hide PutType, Appends, Ready, Grows, TypeLayout, TypeAllowed;
    if s == [] {
      Nothing(limits, o);
    } else {
      var first := PutType(limits, o, s[0], depth);
      TypeAppends(limits, o, s[0], depth);
      if Ready(limits, first) {
        TypesAppend(limits, first, s[1..], depth);
      }
      Both(limits, o, first, PutTypes(limits, o, s, depth), TypeAllowed(limits, s[0], depth),
        TypeLayout(s[0]), TypesAllowed(limits, s[1..], depth), TypesLayout(s[1..]));
    }
  }

  /** What follows the kind of a function type. */
  lemma {:induction false} FunctionAppends(limits: Limits, o: Output, t: Type, depth: nat)
    requires t.components != []
    ensures Ready(limits, o) ==> Appends(limits, o,
      PutTypes(limits, PutCount(limits, o, |t.components|, limits.maximumParameters + 1), t.components, depth + 1),
      CountAllowed(|t.components|, limits.maximumParameters + 1) && TypesAllowed(limits, t.components, depth + 1),
      CountLayout(|t.components|) + TypesLayout(t.components))
    ensures Grows(limits, o,
      PutTypes(limits, PutCount(limits, o, |t.components|, limits.maximumParameters + 1), t.components, depth + 1))
    decreases t, 0
  {
    hide PutCount, PutTypes, Appends, Ready, Grows, CountLayout, CountAllowed, TypesLayout, TypesAllowed;
    var counted := PutCount(limits, o, |t.components|, limits.maximumParameters + 1);
    if Ready(limits, o) {
      CountAppends(limits, o, |t.components|, limits.maximumParameters + 1);
      if Ready(limits, counted) {
        TypesAppend(limits, counted, t.components, depth + 1);
      }
      Both(limits, o, counted, PutTypes(limits, counted, t.components, depth + 1),
        CountAllowed(|t.components|, limits.maximumParameters + 1), CountLayout(|t.components|),
        TypesAllowed(limits, t.components, depth + 1), TypesLayout(t.components));
    }
    GrowsThrough(limits, o, counted, PutTypes(limits, counted, t.components, depth + 1));
  }

  /** What follows the kind of a named type. */
  lemma {:induction false} NamedAppends(limits: Limits, o: Output, t: Type, depth: nat)
    requires t.components == []
    ensures Ready(limits, o) ==> Appends(limits, o,
      PutArguments(limits, PutCount(limits, PutName(limits, o, t.name), |t.arguments|, limits.maximumOperands),
        t.arguments, depth),
      NameAllowed(limits, t.name)
        && (CountAllowed(|t.arguments|, limits.maximumOperands) && ArgumentsAllowed(limits, t.arguments, depth)),
      NameLayout(t.name) + (CountLayout(|t.arguments|) + ArgumentsLayout(t.arguments)))
    ensures Grows(limits, o,
      PutArguments(limits, PutCount(limits, PutName(limits, o, t.name), |t.arguments|, limits.maximumOperands),
        t.arguments, depth))
    decreases t, 0
  {
    hide PutName, PutCount, PutArguments, Appends, Ready, Grows, NameLayout, NameAllowed, CountLayout, CountAllowed,
        ArgumentsLayout, ArgumentsAllowed;
    var name := PutName(limits, o, t.name);
    var counted := PutCount(limits, name, |t.arguments|, limits.maximumOperands);
    var after := PutArguments(limits, counted, t.arguments, depth);
    if Ready(limits, name) {
      CountAppends(limits, name, |t.arguments|, limits.maximumOperands);
      if Ready(limits, counted) {
        ArgumentsAppend(limits, counted, t.arguments, depth);
      }
      Both(limits, name, counted, after, CountAllowed(|t.arguments|, limits.maximumOperands),
        CountLayout(|t.arguments|), ArgumentsAllowed(limits, t.arguments, depth), ArgumentsLayout(t.arguments));
    }
    GrowsThrough(limits, name, counted, after);
    GrowsThrough(limits, o, name, after);
    if Ready(limits, o) {
      NameAppends(limits, o, t.name);
      Both(limits, o, name, after, NameAllowed(limits, t.name), NameLayout(t.name),
        CountAllowed(|t.arguments|, limits.maximumOperands) && ArgumentsAllowed(limits, t.arguments, depth),
        CountLayout(|t.arguments|) + ArgumentsLayout(t.arguments));
    }
  }

  lemma GrowsSelf(limits: Limits, o: Output)
    ensures Grows(limits, o, o)
  {
  }

  lemma GrowsThrough(limits: Limits, o: Output, middle: Output, after: Output)
    requires Grows(limits, o, middle) && Grows(limits, middle, after)
    ensures Grows(limits, o, after)
  {
  }

  /** A type is written exactly when it is allowed and has room, and then as its layout. */
  lemma {:induction false} TypeAppends(limits: Limits, o: Output, t: Type, depth: nat)
    requires Ready(limits, o)
    ensures Appends(limits, o, PutType(limits, o, t, depth), TypeAllowed(limits, t, depth), TypeLayout(t))
    decreases t, 1
  {
    hide PutByte, PutName, PutCount, PutSymbol, PutArguments, PutTypes, Appends, Ready, Grows, NameLayout, NameAllowed,
        CountLayout, CountAllowed, ArgumentsLayout, ArgumentsAllowed, TypesLayout, TypesAllowed, SymbolLayout,
        SymbolAllowed;
    var after := PutType(limits, o, t, depth);
    if depth > limits.maximumTypeDepth {
      Refused(limits, o, LimitExceeded, TypeLayout(t));
    } else {
      var tag := PutByte(limits, o, t.kind);
      ByteKeeps(limits, o, t.kind);
      match t.kind
      case 18 =>
        var layout := CountLayout(|t.components|) + TypesLayout(t.components);
        if t.components == [] {
          Refused(limits, tag, InvalidModel, layout);
          TagThen(limits, o, 18, after, false, layout);
        } else {
          FunctionAppends(limits, tag, t, depth);
          TagThen(limits, o, 18, after, TypeAllowed(limits, t, depth), layout);
        }
      case 19 =>
        var layout := NameLayout(t.name) + (CountLayout(|t.arguments|) + ArgumentsLayout(t.arguments));
        if t.components != [] {
          Refused(limits, PutName(limits, tag, t.name), InvalidModel, layout);
          GrowsThrough(limits, tag, PutName(limits, tag, t.name), after);
          AlwaysRefused(limits, tag, PutName(limits, tag, t.name), InvalidModel, layout);
          TagThen(limits, o, 19, after, false, layout);
        } else {
          NamedAppends(limits, tag, t, depth);
          TagThen(limits, o, 19, after, TypeAllowed(limits, t, depth), layout);
        }
      case 20 =>
        if Ready(limits, tag) {
          SymbolAppends(limits, tag, t.variable);
        }
        TagThen(limits, o, 20, after, TypeAllowed(limits, t, depth), SymbolLayout(t.variable));
      case _ =>
        Refused(limits, tag, InvalidModel, []);
        GrowsSelf(limits, tag);
        if Ready(limits, tag) {
          Nothing(limits, tag);
        }
        TagThen(limits, o, t.kind % 256, after, TypeAllowed(limits, t, depth), []);
    }
  }

  lemma ByteKeeps(limits: Limits, o: Output, value: nat)
    ensures PutByte(limits, o, value) == PutByte(limits, o, value % 256)
  {
  }

  lemma AlwaysRefused(limits: Limits, o: Output, middle: Output, kind: ErrorKind, layout: seq<Octet>)
    ensures Appends(limits, o, Refuse(middle, kind), false, layout)
  {
  }

  // ---------------------------------------------------------------------------
  // Literals

  /** A literal is written exactly when it is allowed and has room, and then as its layout. */
  lemma LiteralAppends(limits: Limits, o: Output, l: Literal, t: Type)
    requires Ready(limits, o)
    ensures Appends(limits, o, PutLiteral(limits, o, l, t), LiteralAllowed(limits, l, t), LiteralLayout(l))
  {
    hide Accepts, PutByte, PutBoolean, PutInteger, PutCounted, PutText, Appends, Ready, Grows, BooleanLayout,
        IntegerLayout, IntegerAllowed, CountedLayout, CountAllowed, TextLayout, TextAllowed, FromSigned;
    var after := PutLiteral(limits, o, l, t);
    if !Accepts(l, t) {
      Refused(limits, o, InvalidModel, LiteralLayout(l));
    } else {
      match l
      case EmptyPayload => ByteAppends(limits, o, 0);
      case BooleanPayload(b) =>
        if Ready(limits, PutByte(limits, o, 1)) {
          BooleanAppends(limits, PutByte(limits, o, 1), b);
        }
        TagThen(limits, o, 1, after, true, BooleanLayout(b));
      case Signed64(n) => IntegerPayloadAppends(limits, o, FromSigned(n));
      case Signed32(n) => IntegerPayloadAppends(limits, o, FromSigned(n));
      case IntegerPayload(v) => IntegerPayloadAppends(limits, o, v);
      case FloatingPayload(s) =>
        if Ready(limits, PutByte(limits, o, 3)) {
          CountedAppends(limits, PutByte(limits, o, 3), s);
        }
        TagThen(limits, o, 3, after, CountAllowed(|s|, limits.maximumNumericBytes), CountedLayout(s));
      case TextPayload(s) =>
        if Ready(limits, PutByte(limits, o, 4)) {
          TextAppends(limits, PutByte(limits, o, 4), s);
        }
        TagThen(limits, o, 4, after, TextAllowed(limits, s), TextLayout(s));
    }
  }

  lemma IntegerPayloadAppends(limits: Limits, o: Output, v: IntegerLiteral)
    requires Ready(limits, o)
    ensures Appends(limits, o, PutInteger(limits, PutByte(limits, o, 2), v), IntegerAllowed(limits, v),
      [2] + IntegerLayout(v))
  {
    hide PutByte, PutInteger, Appends, Ready, Grows, IntegerLayout, IntegerAllowed;
    if Ready(limits, PutByte(limits, o, 2)) {
      IntegerAppends(limits, PutByte(limits, o, 2), v);
    }
    TagThen(limits, o, 2, PutInteger(limits, PutByte(limits, o, 2), v), IntegerAllowed(limits, v), IntegerLayout(v));
  }
}
