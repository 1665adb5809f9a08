/** The errors of the artifact wire: a value is a list of fields and refusals, which says what is
    written up to the first error, which error that is and where; and which octets make a reader
    stop, with which error at which offset. */
module WireErrors {
  import opened Wrappers
  import opened TypeIdentity
  import opened WireFormat
  import opened WireTypes
  import opened CoreScalars
  import opened WireLiterals
  import opened WireLayout
  import opened WireReading

  // ---------------------------------------------------------------------------
  // Writing

  /** Octets that are written together, or a refusal to go on. */
  datatype Field = Octets(bytes: seq<Octet>) | Refusal(kind: ErrorKind)

  /** Fields are written one by one, up to the first refusal or the first that has no room. */
  function Run(limits: Limits, o: Output, fields: seq<Field>): Output
    decreases |fields|
  {
    if fields == [] || o.failure.Some? then o
    else
      match fields[0]
      case Octets(bytes) =>
        if |o.bytes| + |bytes| > limits.maximumWireBytes then o.(failure := Some(Error(LimitExceeded, |o.bytes|)))
        else Run(limits, o.(bytes := o.bytes + bytes), fields[1..])
      case Refusal(kind) => o.(failure := Some(Error(kind, |o.bytes|)))
  }

  function CountFields(n: nat, maximum: nat): seq<Field> {
    if CountAllowed(n, maximum) then [Octets(CountLayout(n))] else [Refusal(LimitExceeded)]
  }

  function ScalarFields(text: Text): seq<Field> {
    seq(|text|, i requires 0 <= i < |text| =>
      if text[i] < 0xd800 || 0xe000 <= text[i] < 0x11_0000 then Octets(LittleEndian(text[i], 4))
      else Refusal(InvalidScalar))
  }

  function TextFields(limits: Limits, text: Text): seq<Field> {
    CountFields(|text|, limits.maximumTextScalars) + ScalarFields(text)
  }

  function TextsFields(limits: Limits, parts: seq<Text>): seq<Field> {
    if parts == [] then [] else TextFields(limits, parts[0]) + TextsFields(limits, parts[1..])
  }

  function NameFields(limits: Limits, name: seq<Text>): seq<Field> {
    CountFields(|name|, 65535) + TextsFields(limits, name)
  }

  function SymbolFields(limits: Limits, s: SymbolName): seq<Field> {
    if s.id == 0 then [Refusal(InvalidSymbol)] else [Octets(LittleEndian(s.id, 8))] + TextFields(limits, s.spelling)
  }

  function OctetFields(octets: seq<nat>): seq<Field> {
    seq(|octets|, i requires 0 <= i < |octets| => Octets([octets[i] % 256]))
  }

  function CountedFields(limits: Limits, octets: seq<nat>): seq<Field> {
    CountFields(|octets|, limits.maximumNumericBytes) + OctetFields(octets)
  }

  function IntegerFields(limits: Limits, v: IntegerLiteral): seq<Field> {
    [Octets(BooleanLayout(v.negative))] + CountedFields(limits, v.magnitude)
  }

  function CanonicalFields(limits: Limits, v: IntegerLiteral): seq<Field> {
    if IsCanonical(v) then IntegerFields(limits, v) else [Refusal(InvalidInteger)]
  }

  function ValueFields(limits: Limits, v: TemplateValue): seq<Field> {
    match v.kind
    case IntegerValue => [Octets([0])] + CanonicalFields(limits, v.integer)
    case BooleanValue => [Octets([1]), Octets(BooleanLayout(v.boolean))]
    case CharacterValue => [Octets([2])] + CanonicalFields(limits, v.integer)
    case ParameterValue => [Octets([3])] + SymbolFields(limits, v.parameter)
  }

  function ArgumentFields(limits: Limits, a: Argument, depth: nat): seq<Field>
    decreases a
  {
    if !a.isType then [Octets([1])] + ValueFields(limits, a.value)
    else if a.payload.None? then [Octets([0]), Refusal(InvalidModel)]
    else [Octets([0])] + TypeFields(limits, a.payload.value, depth + 1)
  }

  function ArgumentsFields(limits: Limits, s: seq<Argument>, depth: nat): seq<Field>
    decreases s
  {
    if s == [] then [] else ArgumentFields(limits, s[0], depth) + ArgumentsFields(limits, s[1..], depth)
  }

  function TypesFields(limits: Limits, s: seq<Type>, depth: nat): seq<Field>
    decreases s
  {
    if s == [] then [] else TypeFields(limits, s[0], depth) + TypesFields(limits, s[1..], depth)
  }

  /** What follows the kind of a type. */
  function PayloadFields(limits: Limits, t: Type, depth: nat): seq<Field>
    decreases t, 0
  {
    match t.kind
    case 18 =>
      if t.components == [] then [Refusal(InvalidModel)]
      else CountFields(|t.components|, limits.maximumParameters + 1) + TypesFields(limits, t.components, depth + 1)
    case 19 =>
      NameFields(limits, t.name) +
      if t.components != [] then [Refusal(InvalidModel)]
      else CountFields(|t.arguments|, limits.maximumOperands) + ArgumentsFields(limits, t.arguments, depth)
    case 20 => SymbolFields(limits, t.variable)
    case _ =>
      if t.name == [] && t.components == [] && t.arguments == [] && t.variable.id == 0 then []
      else [Refusal(InvalidModel)]
  }

  function TypeFields(limits: Limits, t: Type, depth: nat): seq<Field>
    decreases t, 1
  {
    if depth > limits.maximumTypeDepth then [Refusal(LimitExceeded)]
    else [Octets([t.kind % 256])] + PayloadFields(limits, t, depth)
  }

  function LiteralFields(limits: Limits, l: Literal, t: Type): seq<Field> {
    if !Accepts(l, t) then [Refusal(InvalidModel)]
    else
      match l
      case EmptyPayload => [Octets([0])]
      case BooleanPayload(b) => [Octets([1]), Octets(BooleanLayout(b))]
      case Signed64(n) => [Octets([2])] + IntegerFields(limits, FromSigned(n))
      case Signed32(n) => [Octets([2])] + IntegerFields(limits, FromSigned(n))
      case IntegerPayload(v) => [Octets([2])] + IntegerFields(limits, v)
      case FloatingPayload(s) => [Octets([3])] + CountedFields(limits, s)
      case TextPayload(s) => [Octets([4])] + TextFields(limits, s)
  }

  lemma {:induction false} RunSplit(limits: Limits, o: Output, a: seq<Field>, b: seq<Field>)
    ensures Run(limits, o, a + b) == Run(limits, Run(limits, o, a), b)
    decreases |a|
  {
    if a == [] {
      assert a + b == b;
    } else {
      assert (a + b)[0] == a[0] && (a + b)[1..] == a[1..] + b;
      if o.failure.None? && a[0].Octets? {
        RunSplit(limits, o.(bytes := o.bytes + a[0].bytes), a[1..], b);
      }
    }
  }

  lemma RunOne(limits: Limits, o: Output, bytes: seq<Octet>)
    ensures Run(limits, o, [Octets(bytes)]) == Append(limits, o, bytes)
  {
    assert [Octets(bytes)][1..] == [];
  }

  lemma RunRefusal(limits: Limits, o: Output, kind: ErrorKind)
    ensures Run(limits, o, [Refusal(kind)]) == Refuse(o, kind)
  {
  }

  lemma CountRuns(limits: Limits, o: Output, n: nat, maximum: nat)
    ensures PutCount(limits, o, n, maximum) == Run(limits, o, CountFields(n, maximum))
  {
    hide LittleEndian, Run;
    RunOne(limits, o, LittleEndian(n, 4));
    RunRefusal(limits, o, LimitExceeded);
  }

  lemma {:induction false} ScalarsRun(limits: Limits, o: Output, text: Text)
    ensures PutScalars(limits, o, text) == Run(limits, o, ScalarFields(text))
    decreases |text|
  {
    hide LittleEndian, Run;
    if text == [] {
      assert Run(limits, o, []) == o by { hide *; RunNothing(limits, o); }
    } else {
      var first := ScalarFields(text)[0];
      assert ScalarFields(text) == [first] + ScalarFields(text[1..]);
      RunSplit(limits, o, [first], ScalarFields(text[1..]));
      if IsUnicodeScalar(text[0]) {
        RunOne(limits, o, LittleEndian(text[0], 4));
        ScalarsRun(limits, PutWord(limits, o, text[0], 4), text[1..]);
      } else {
        RunRefusal(limits, o, InvalidScalar);
        RunFailed(limits, Refuse(o, InvalidScalar), ScalarFields(text[1..]));
      }
    }
  }

  lemma RunNothing(limits: Limits, o: Output)
    ensures Run(limits, o, []) == o
  {
  }

  lemma RunFailed(limits: Limits, o: Output, fields: seq<Field>)
    requires o.failure.Some?
    ensures Run(limits, o, fields) == o
  {
  }

  lemma TextRuns(limits: Limits, o: Output, text: Text)
    ensures PutText(limits, o, text) == Run(limits, o, TextFields(limits, text))
  {
    hide PutCount, PutScalars, Run, CountFields, ScalarFields;
    var counted := PutCount(limits, o, |text|, limits.maximumTextScalars);
    CountRuns(limits, o, |text|, limits.maximumTextScalars);
    ScalarsRun(limits, counted, text);
    RunSplit(limits, o, CountFields(|text|, limits.maximumTextScalars), ScalarFields(text));
  }

  lemma {:induction false} TextsRun(limits: Limits, o: Output, parts: seq<Text>)
    ensures PutTexts(limits, o, parts) == Run(limits, o, TextsFields(limits, parts))
    decreases |parts|
  {
    hide PutText, Run, TextFields;
    if parts == [] {
      RunNothing(limits, o);
    } else {
      TextRuns(limits, o, parts[0]);
      TextsRun(limits, PutText(limits, o, parts[0]), parts[1..]);
      RunSplit(limits, o, TextFields(limits, parts[0]), TextsFields(limits, parts[1..]));
    }
  }

  lemma NameRuns(limits: Limits, o: Output, name: seq<Text>)
    ensures PutName(limits, o, name) == Run(limits, o, NameFields(limits, name))
  {
    hide PutCount, PutTexts, Run, CountFields, TextsFields;
    CountRuns(limits, o, |name|, 65535);
    TextsRun(limits, PutCount(limits, o, |name|, 65535), name);
    RunSplit(limits, o, CountFields(|name|, 65535), TextsFields(limits, name));
  }

  lemma SymbolRuns(limits: Limits, o: Output, s: SymbolName)
    ensures PutSymbol(limits, o, s) == Run(limits, o, SymbolFields(limits, s))
  {
    hide LittleEndian, PutText, Run, TextFields;
    if s.id == 0 {
      RunRefusal(limits, o, InvalidSymbol);
    } else {
      RunOne(limits, o, LittleEndian(s.id, 8));
      TextRuns(limits, PutWord(limits, o, s.id, 8), s.spelling);
      RunSplit(limits, o, [Octets(LittleEndian(s.id, 8))], TextFields(limits, s.spelling));
    }
  }

  lemma {:induction false} OctetsRun(limits: Limits, o: Output, octets: seq<nat>)
    ensures PutOctets(limits, o, octets) == Run(limits, o, OctetFields(octets))
    decreases |octets|
  {
    hide Run;
    if octets == [] {
      RunNothing(limits, o);
    } else {
      var first := Octets([octets[0] % 256]);
      assert OctetFields(octets) == [first] + OctetFields(octets[1..]);
      RunOne(limits, o, [octets[0] % 256]);
      OctetsRun(limits, PutByte(limits, o, octets[0]), octets[1..]);
      RunSplit(limits, o, [first], OctetFields(octets[1..]));
    }
  }

  lemma CountedRuns(limits: Limits, o: Output, octets: seq<nat>)
    ensures PutCounted(limits, o, octets) == Run(limits, o, CountedFields(limits, octets))
  {
    hide PutCount, PutOctets, Run, CountFields, OctetFields;
    CountRuns(limits, o, |octets|, limits.maximumNumericBytes);
    OctetsRun(limits, PutCount(limits, o, |octets|, limits.maximumNumericBytes), octets);
    RunSplit(limits, o, CountFields(|octets|, limits.maximumNumericBytes), OctetFields(octets));
  }

  lemma BooleanRuns(limits: Limits, o: Output, b: bool)
    ensures PutBoolean(limits, o, b) == Run(limits, o, [Octets(BooleanLayout(b))])
  {
    hide Run;
    RunOne(limits, o, BooleanLayout(b));
  }

  lemma IntegerRuns(limits: Limits, o: Output, v: IntegerLiteral)
    ensures PutInteger(limits, o, v) == Run(limits, o, IntegerFields(limits, v))
  {
    hide PutBoolean, PutCounted, Run, CountedFields, BooleanLayout;
    BooleanRuns(limits, o, v.negative);
    CountedRuns(limits, PutBoolean(limits, o, v.negative), v.magnitude);
    RunSplit(limits, o, [Octets(BooleanLayout(v.negative))], CountedFields(limits, v.magnitude));
  }

  /** A tag and then further fields. */
  lemma TagRuns(limits: Limits, o: Output, tag: nat, fields: seq<Field>)
    ensures Run(limits, o, [Octets([tag % 256])] + fields) == Run(limits, PutByte(limits, o, tag), fields)
  {
    hide Run;
    RunOne(limits, o, [tag % 256]);
    RunSplit(limits, o, [Octets([tag % 256])], fields);
  }

  lemma ValueRuns(limits: Limits, o: Output, v: TemplateValue)
    ensures PutValue(limits, o, v) == Run(limits, o, ValueFields(limits, v))
  {
    hide PutByte, PutBoolean, PutSymbol, PutInteger, Run, IntegerFields, SymbolFields, BooleanLayout, IsCanonical;
    var tag := PutByte(limits, o, ValueCode(v.kind));
    match v.kind
    case BooleanValue =>
      BooleanRuns(limits, tag, v.boolean);
      TagRuns(limits, o, 1, [Octets(BooleanLayout(v.boolean))]);
      assert [Octets([1])] + [Octets(BooleanLayout(v.boolean))] == ValueFields(limits, v);
    case ParameterValue =>
      SymbolRuns(limits, tag, v.parameter);
      TagRuns(limits, o, 3, SymbolFields(limits, v.parameter));
    case _ =>
      IntegerRuns(limits, tag, v.integer);
      RunRefusal(limits, tag, InvalidInteger);
      TagRuns(limits, o, ValueCode(v.kind), CanonicalFields(limits, v.integer));
  }

  lemma {:induction false} ArgumentRuns(limits: Limits, o: Output, a: Argument, depth: nat)
    ensures PutArgument(limits, o, a, depth) == Run(limits, o, ArgumentFields(limits, a, depth))
    decreases a
  {
    hide PutByte, PutValue, PutType, Run, ValueFields, TypeFields;
    var tag := PutByte(limits, o, if a.isType then 0 else 1);
    if !a.isType {
      ValueRuns(limits, tag, a.value);
      TagRuns(limits, o, 1, ValueFields(limits, a.value));
    } else if a.payload.None? {
      RunRefusal(limits, tag, InvalidModel);
      TagRuns(limits, o, 0, [Refusal(InvalidModel)]);
      assert [Octets([0])] + [Refusal(InvalidModel)] == ArgumentFields(limits, a, depth);
    } else {
      TypeRuns(limits, tag, a.payload.value, depth + 1);
      TagRuns(limits, o, 0, TypeFields(limits, a.payload.value, depth + 1));
    }
  }

  lemma {:induction false} ArgumentsRun(limits: Limits, o: Output, s: seq<Argument>, depth: nat)
    ensures PutArguments(limits, o, s, depth) == Run(limits, o, ArgumentsFields(limits, s, depth))
    decreases s
  {
    hide PutArgument, Run, ArgumentFields;
    if s == [] {
      RunNothing(limits, o);
    } else {
      ArgumentRuns(limits, o, s[0], depth);
      ArgumentsRun(limits, PutArgument(limits, o, s[0], depth), s[1..], depth);
      RunSplit(limits, o, ArgumentFields(limits, s[0], depth), ArgumentsFields(limits, s[1..], depth));
    }
  }

  lemma {:induction false} TypesRun(limits: Limits, o: Output, s: seq<Type>, depth: nat)
    ensures PutTypes(limits, o, s, depth) == Run(limits, o, TypesFields(limits, s, depth))
    decreases s
  {
    hide PutType, Run, TypeFields;
    if s == [] {
      RunNothing(limits, o);
    } else {
      TypeRuns(limits, o, s[0], depth);
      TypesRun(limits, PutType(limits, o, s[0], depth), s[1..], depth);
      RunSplit(limits, o, TypeFields(limits, s[0], depth), TypesFields(limits, s[1..], depth));
    }
  }

  lemma {:induction false} FunctionRuns(limits: Limits, o: Output, t: Type, depth: nat)
    requires t.kind == 18 && t.components != []
    ensures PutTypes(limits, PutCount(limits, o, |t.components|, limits.maximumParameters + 1), t.components, depth + 1)
      == Run(limits, o, PayloadFields(limits, t, depth))
    decreases t, 0
  {
    hide PutCount, PutTypes, Run, CountFields, TypesFields;
    var counted := PutCount(limits, o, |t.components|, limits.maximumParameters + 1);
    CountRuns(limits, o, |t.components|, limits.maximumParameters + 1);
    TypesRun(limits, counted, t.components, depth + 1);
    RunSplit(limits, o, CountFields(|t.components|, limits.maximumParameters + 1),
      TypesFields(limits, t.components, depth + 1));
  }

  lemma {:induction false} NamedRuns(limits: Limits, o: Output, t: Type, depth: nat)
    requires t.kind == 19
    ensures
      var name := PutName(limits, o, t.name);
      Run(limits, o, PayloadFields(limits, t, depth)) ==
        if t.components != [] then Refuse(name, InvalidModel)
        else PutArguments(limits, PutCount(limits, name, |t.arguments|, limits.maximumOperands), t.arguments, depth)
    decreases t, 0
  {
    hide PutName, PutCount, PutArguments, Run, NameFields, CountFields, ArgumentsFields;
    var name := PutName(limits, o, t.name);
    NameRuns(limits, o, t.name);
    if t.components != [] {
      RunRefusal(limits, name, InvalidModel);
      RunSplit(limits, o, NameFields(limits, t.name), [Refusal(InvalidModel)]);
    } else {
      var counted := PutCount(limits, name, |t.arguments|, limits.maximumOperands);
      var rest := CountFields(|t.arguments|, limits.maximumOperands);
      CountRuns(limits, name, |t.arguments|, limits.maximumOperands);
      ArgumentsRun(limits, counted, t.arguments, depth);
      RunSplit(limits, name, rest, ArgumentsFields(limits, t.arguments, depth));
      RunSplit(limits, o, NameFields(limits, t.name), rest + ArgumentsFields(limits, t.arguments, depth));
    }
  }

  /** Writing a type is writing its fields: the same octets up to the same error at the same offset. */
  lemma {:induction false} TypeRuns(limits: Limits, o: Output, t: Type, depth: nat)
    ensures PutType(limits, o, t, depth) == Run(limits, o, TypeFields(limits, t, depth))
    decreases t, 1
  {
    hide PutByte, PutName, PutCount, PutSymbol, PutArguments, PutTypes, Run, NameFields, CountFields, SymbolFields,
        ArgumentsFields, TypesFields;
    if depth > limits.maximumTypeDepth {
      RunRefusal(limits, o, LimitExceeded);
    } else {
      var tag := PutByte(limits, o, t.kind);
      TagRuns(limits, o, t.kind, PayloadFields(limits, t, depth));
      RunRefusal(limits, tag, InvalidModel);
      match t.kind
      case 18 =>
        if t.components != [] {
          FunctionRuns(limits, tag, t, depth);
        }
      case 19 => NamedRuns(limits, tag, t, depth);
      case 20 => SymbolRuns(limits, tag, t.variable);
      case _ => RunNothing(limits, tag);
    }
  }

  /** Writing a literal is writing its fields. */
  lemma LiteralRuns(limits: Limits, o: Output, l: Literal, t: Type)
    ensures PutLiteral(limits, o, l, t) == Run(limits, o, LiteralFields(limits, l, t))
  {
    hide Accepts, PutByte, PutBoolean, PutInteger, PutCounted, PutText, Run, BooleanLayout, IntegerFields,
        CountedFields, TextFields, FromSigned;
    if !Accepts(l, t) {
      RunRefusal(limits, o, InvalidModel);
    } else {
      match l
      case EmptyPayload =>
        TagRuns(limits, o, 0, []);
        RunNothing(limits, PutByte(limits, o, 0));
        assert [Octets([0])] + [] == [Octets([0])];
      case BooleanPayload(b) =>
        BooleanRuns(limits, PutByte(limits, o, 1), b);
        TagRuns(limits, o, 1, [Octets(BooleanLayout(b))]);
        assert [Octets([1])] + [Octets(BooleanLayout(b))] == [Octets([1]), Octets(BooleanLayout(b))];
      case Signed64(n) => IntegerPayloadRuns(limits, o, FromSigned(n));
      case Signed32(n) => IntegerPayloadRuns(limits, o, FromSigned(n));
      case IntegerPayload(v) => IntegerPayloadRuns(limits, o, v);
      case FloatingPayload(s) =>
        CountedRuns(limits, PutByte(limits, o, 3), s);
        TagRuns(limits, o, 3, CountedFields(limits, s));
      case TextPayload(s) =>
        TextRuns(limits, PutByte(limits, o, 4), s);
        TagRuns(limits, o, 4, TextFields(limits, s));
    }
  }

  lemma IntegerPayloadRuns(limits: Limits, o: Output, v: IntegerLiteral)
    ensures PutInteger(limits, PutByte(limits, o, 2), v) == Run(limits, o, [Octets([2])] + IntegerFields(limits, v))
  {
    hide PutByte, PutInteger, Run, IntegerFields;
    IntegerRuns(limits, PutByte(limits, o, 2), v);
    TagRuns(limits, o, 2, IntegerFields(limits, v));
  }

  // ---------------------------------------------------------------------------
  // Reading

  /** A reader that stopped there with that error. */
  function Stopped(kind: ErrorKind, offset: nat): Cursor {
    Cursor(offset, Some(Error(kind, offset)))
  }

  /** An input that ends within a number. */
  lemma {:induction false} WordStops(input: seq<Octet>, offset: nat, width: nat)
    requires offset <= |input| < offset + width
    ensures TakeWord(input, At(offset), width).next == Stopped(TruncatedInput, |input|)
    decreases width
  {
    if offset < |input| {
      WordStops(input, offset + 1, width - 1);
    } else {
      WordFailed(input, Stopped(TruncatedInput, offset), width - 1);
    }
  }

  lemma {:induction false} WordFailed(input: seq<Octet>, c: Cursor, width: nat)
    requires c.failure.Some?
    ensures TakeWord(input, c, width).next == c
    decreases width
  {
    if width > 0 {
      WordFailed(input, c, width - 1);
    }
  }

  /** A truth value that is neither zero nor one. */
  lemma BooleanStops(input: seq<Octet>, offset: nat)
    requires offset < |input| && input[offset] > 1
    ensures TakeBoolean(input, At(offset)).next == Stopped(InvalidBoolean, offset + 1)
  {
  }

  /** A count beyond its limit. */
  lemma CountStops(input: seq<Octet>, offset: nat, n: nat, maximum: nat)
    requires Holds(input, offset, offset + 4, LittleEndian(n, 4)) && maximum < n < 0x1_0000_0000
    ensures TakeCount(input, At(offset), maximum) == Read(0, Stopped(LimitExceeded, offset + 4))
  {
    hide LittleEndian, TakeWord;
    Powers();
    WordReadsBack(input, offset, n, 4);
  }

  /** A value that is no scalar, after any that are. */
  lemma {:induction false} ScalarStops(input: seq<Octet>, offset: nat, good: Text, middle: nat, bad: nat, count: nat)
    requires Holds(input, offset, middle, ScalarsLayout(good)) && AllScalars(good) && |good| < count
    requires Holds(input, middle, middle + 4, LittleEndian(bad, 4)) && bad < 0x1_0000_0000 && !IsUnicodeScalar(bad)
    ensures TakeScalars(input, At(offset), count).next == Stopped(InvalidScalar, middle + 4)
    decreases |good|
  {
    hide LittleEndian, TakeWord;
    Powers();
    if good == [] {
      WordReadsBack(input, offset, bad, 4);
    } else {
      var first, rest := LittleEndian(good[0], 4), ScalarsLayout(good[1..]);
      assert input[offset..offset + 4] == input[offset..middle][..4] == first;
      assert input[offset + 4..middle] == input[offset..middle][4..] == rest;
      WordReadsBack(input, offset, good[0], 4);
      ScalarStops(input, offset + 4, good[1..], middle, bad, count - 1);
    }
  }

  /** A symbol without an identity. */
  lemma SymbolStops(limits: Limits, input: seq<Octet>, offset: nat)
    requires Holds(input, offset, offset + 8, LittleEndian(0, 8))
    ensures TakeSymbol(limits, input, At(offset)).next == Stopped(InvalidSymbol, offset + 8)
  {
    hide LittleEndian, TakeWord, TakeText;
    Powers();
    WordReadsBack(input, offset, 0, 8);
    var c := Stopped(InvalidSymbol, offset + 8);
    assert Moves(input, c, TakeText(limits, input, c).next);
  }

  /** An integer with a leading zero octet, or a negative zero. */
  lemma IntegerStops(limits: Limits, input: seq<Octet>, offset: nat, v: IntegerLiteral, end: nat)
    requires Readable(limits, input, offset) && Holds(input, offset, end, IntegerLayout(v))
    requires IntegerAllowed(limits, v) && AllOctets(v.magnitude) && !IsCanonical(v)
    ensures TakeInteger(limits, input, At(offset)) == Read(v, Stopped(InvalidInteger, end))
  {
    hide TakeBoolean, TakeCounted, PutBoolean, PutCounted, Appends, IsCanonical, AllOctets;
    var o := Written(input, offset);
    IntegerAppends(limits, o, v);
    LayoutWrites(limits, input, offset, end, PutInteger(limits, o, v), IntegerLayout(v));
    hide IntegerLayout;
    BooleanReadsBack(limits, o, v.negative, input);
    CountedReadsBack(limits, PutBoolean(limits, o, v.negative), v.magnitude, input);
  }

  /** Nesting beyond the limit, an unknown kind, or a function without a result. */
  lemma TypeStops(limits: Limits, input: seq<Octet>, offset: nat, depth: nat)
    ensures depth > limits.maximumTypeDepth ==>
      TakeType(limits, input, At(offset), depth) == Read(UNIT, Stopped(LimitExceeded, offset))
    ensures depth <= limits.maximumTypeDepth && offset < |input| && input[offset] > 20 ==>
      TakeType(limits, input, At(offset), depth) == Read(UNIT, Stopped(InvalidTag, offset + 1))
    ensures (depth <= limits.maximumTypeDepth && offset + 5 <= |input|
        && input[offset..offset + 5] == [18, 0, 0, 0, 0]) ==>
      TakeType(limits, input, At(offset), depth) == Read(UNIT, Stopped(InvalidModel, offset + 5))
  {
    if depth <= limits.maximumTypeDepth && offset + 5 <= |input| && input[offset..offset + 5] == [18, 0, 0, 0, 0] {
      assert input[offset] == input[offset..offset + 5][0] == 18;
      assert input[offset + 1..offset + 5] == input[offset..offset + 5][1..] == [0, 0, 0, 0];
      NoCount(input, offset + 1, limits.maximumParameters + 1);
    }
  }

  lemma NoCount(input: seq<Octet>, offset: nat, maximum: nat)
    requires offset + 4 <= |input| && input[offset..offset + 4] == [0, 0, 0, 0]
    ensures TakeCount(input, At(offset), maximum) == Read(0, At(offset + 4))
  {
    Powers();
    assert LittleEndian(0, 4) == [0, 0, 0, 0];
    hide LittleEndian, TakeWord;
    WordReadsBack(input, offset, 0, 4);
  }

  /** An unknown sort of argument or value. */
  lemma ArgumentStops(limits: Limits, input: seq<Octet>, offset: nat, depth: nat)
    requires offset < |input| && depth <= limits.maximumTypeDepth
    ensures input[offset] > 1 ==> TakeArgument(limits, input, At(offset), depth) == Read(None,
      Stopped(InvalidTag, offset + 1))
    ensures input[offset] > 3 ==> TakeValue(limits, input, At(offset)) == Read(None, Stopped(InvalidTag, offset + 1))
  {
    hide TakeType;
  }

  /** A literal of an unknown sort. */
  lemma LiteralTagStops(limits: Limits, input: seq<Octet>, offset: nat, t: Type)
    requires offset < |input| && input[offset] > 4
    ensures TakeLiteral(limits, input, At(offset), t).next == Stopped(InvalidTag, offset + 1)
  {
    hide Accepts;
  }

  /** A literal that another type accepts, and this one does not. */
  lemma LiteralStops(limits: Limits, input: seq<Octet>, offset: nat, l: Literal, other: Type, t: Type, end: nat)
    requires TakeLiteral(limits, input, At(offset), other) == Read(l, At(end)) && !Accepts(l, t)
    ensures TakeLiteral(limits, input, At(offset), t) == Read(l, Stopped(InvalidModel, end))
  {
    hide TakePayload, Accepts;
  }

  /** A floating spelling with a character that is not ASCII, after any that are. */
  lemma {:induction false} CharacterStops(input: seq<Octet>, offset: nat, middle: nat, count: nat)
    requires offset <= middle < |input| && middle - offset < count && input[middle] > 0x7f
    requires forall i :: offset <= i < middle ==> input[i] <= 0x7f
    ensures TakeCharacters(input, At(offset), count).next == Stopped(InvalidInteger, middle + 1)
    decreases middle - offset
  {
    if offset < middle {
      CharacterStops(input, offset + 1, middle, count - 1);
    }
  }
}
