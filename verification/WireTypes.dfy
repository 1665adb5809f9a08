/** Core types on the artifact wire (Talac/Artifact/WireSupport.cpp): a written type is read back as
    its meaning, and every accepted reading is the one and only writing of what was read. */
module WireTypes {
  import opened Wrappers
  import opened TypeIdentity
  import opened WireFormat

  // ---------------------------------------------------------------------------
  // Writing

  function PutValue(limits: Limits, o: Output, v: TemplateValue): (r: Output)
    ensures Grows(limits, o, r)
  {
    var tag := PutByte(limits, o, ValueCode(v.kind));
    match v.kind
    case BooleanValue => PutBoolean(limits, tag, v.boolean)
    case ParameterValue => PutSymbol(limits, tag, v.parameter)
    case _ => if IsCanonical(v.integer) then PutInteger(limits, tag, v.integer) else Refuse(tag, InvalidInteger)
  }

  function PutArgument(limits: Limits, o: Output, a: Argument, depth: nat): (r: Output)
    ensures Grows(limits, o, r)
    decreases a
  {
    var tag := PutByte(limits, o, if a.isType then 0 else 1);
    if !a.isType then PutValue(limits, tag, a.value)
    else if a.payload.None? then Refuse(tag, InvalidModel)
    else PutType(limits, tag, a.payload.value, depth + 1)
  }

  function PutArguments(limits: Limits, o: Output, s: seq<Argument>, depth: nat): (r: Output)
    ensures Grows(limits, o, r)
    decreases s
  {
    if s == [] then o else PutArguments(limits, PutArgument(limits, o, s[0], depth), s[1..], depth)
  }

  function PutTypes(limits: Limits, o: Output, s: seq<Type>, depth: nat): (r: Output)
    ensures Grows(limits, o, r)
    decreases s
  {
    if s == [] then o else PutTypes(limits, PutType(limits, o, s[0], depth), s[1..], depth)
  }

  function PutType(limits: Limits, o: Output, t: Type, depth: nat): (r: Output)
    ensures Grows(limits, o, r)
    decreases t
  {
    if depth > limits.maximumTypeDepth then Refuse(o, LimitExceeded)
    else
      var tag := PutByte(limits, o, t.kind);
      if t.kind == NAMED then
        var name := PutName(limits, tag, t.name);
        if t.components != [] then Refuse(name, InvalidModel)
        else PutArguments(limits, PutCount(limits, name, |t.arguments|, limits.maximumOperands), t.arguments, depth)
      else if t.kind == FUNCTION then
        if t.components == [] then Refuse(tag, InvalidModel)
        else PutTypes(limits, PutCount(limits, tag, |t.components|, limits.maximumParameters + 1), t.components,
            depth + 1)
      else if t.kind == TYPE_VARIABLE then PutSymbol(limits, tag, t.variable)
      else if t.name != [] || t.components != [] || t.arguments != []
          || t.variable.id != 0 then Refuse(tag, InvalidModel)
      else tag
  }

  // ---------------------------------------------------------------------------
  // Reading

  function KindOfValue(code: nat): ValueKind
    requires code <= 3
  {
    match code
    case 0 => IntegerValue
    case 1 => BooleanValue
    case 2 => CharacterValue
    case 3 => ParameterValue
  }

  function TakeValue(limits: Limits, input: seq<Octet>, c: Cursor): (r: Read<Option<TemplateValue>>)
    ensures Moves(input, c, r.next) && (r.value.None? ==> r.next.failure.Some?)
  {
    var tag := TakeByte(input, c);
    if tag.value > 3 then Read(None, Reject(tag.next, InvalidTag))
    else
      match KindOfValue(tag.value)
      case BooleanValue =>
        var b := TakeBoolean(input, tag.next);
        Read(Some(TemplateValue(BooleanValue, NO_INTEGER, b.value, NO_SYMBOL)), b.next)
      case ParameterValue =>
        var s := TakeSymbol(limits, input, tag.next);
        Read(Some(TemplateValue(ParameterValue, NO_INTEGER, false, s.value)), s.next)
      case kind =>
        var v := TakeInteger(limits, input, tag.next);
        Read(Some(TemplateValue(kind, v.value, false, NO_SYMBOL)), v.next)
  }

  /** How many more levels may be entered. */
  function Room(limits: Limits, depth: nat): nat {
    if depth > limits.maximumTypeDepth then 0 else limits.maximumTypeDepth - depth + 1
  }

  function TakeArgument(limits: Limits, input: seq<Octet>, c: Cursor, depth: nat): (r: Read<Option<Argument>>)
    requires depth <= limits.maximumTypeDepth
    ensures Moves(input, c, r.next) && (r.value.None? ==> r.next.failure.Some?)
    decreases Room(limits, depth), 0, 0
  {
    var tag := TakeByte(input, c);
    if tag.value == 0 then
      var t := TakeType(limits, input, tag.next, depth + 1);
      Read(Some(Argument(true, Some(t.value), NO_VALUE)), t.next)
    else if tag.value != 1 then Read(None, Reject(tag.next, InvalidTag))
    else
      var v := TakeValue(limits, input, tag.next);
      Read(if v.value.None? then None else Some(Argument(false, None, v.value.value)), v.next)
  }

  function TakeArguments(limits: Limits, input: seq<Octet>, c: Cursor, count: nat, depth: nat): (r: Read<seq<Argument>>)
    requires depth <= limits.maximumTypeDepth
    ensures Moves(input, c, r.next)
    decreases Room(limits, depth), 1, count
  {
    if count == 0 || c.failure.Some? then Read([], c)
    else
      var first := TakeArgument(limits, input, c, depth);
      if first.value.None? then Read([], first.next)
      else
        var rest := TakeArguments(limits, input, first.next, count - 1, depth);
        Read([first.value.value] + rest.value, rest.next)
  }

  function TakeTypes(limits: Limits, input: seq<Octet>, c: Cursor, count: nat, depth: nat): (r: Read<seq<Type>>)
    ensures Moves(input, c, r.next)
    decreases Room(limits, depth), 3, count
  {
    if count == 0 || c.failure.Some? then Read([], c)
    else
      var first := TakeType(limits, input, c, depth);
      var rest := TakeTypes(limits, input, first.next, count - 1, depth);
      Read([first.value] + rest.value, rest.next)
  }

  function TakeType(limits: Limits, input: seq<Octet>, c: Cursor, depth: nat): (r: Read<Type>)
    ensures Moves(input, c, r.next)
    decreases Room(limits, depth), 2, 0
  {
    if depth > limits.maximumTypeDepth then Read(UNIT, Reject(c, LimitExceeded))
    else
      var tag := TakeByte(input, c);
      if tag.value > TYPE_VARIABLE then Read(UNIT, Reject(tag.next, InvalidTag))
      else if tag.value == NAMED then
        var name := TakeName(limits, input, tag.next);
        var n := TakeCount(input, name.next, limits.maximumOperands);
        var arguments := TakeArguments(limits, input, n.next, n.value, depth);
        Read(Type(NAMED, name.value, [], arguments.value, NO_SYMBOL), arguments.next)
      else if tag.value == FUNCTION then
        var n := TakeCount(input, tag.next, limits.maximumParameters + 1);
        var components := TakeTypes(limits, input, if n.value == 0 then Reject(n.next, InvalidModel)
            else n.next, n.value, depth + 1);
        Read(if components.value == [] then UNIT
            else Type(FUNCTION, [], components.value, [], NO_SYMBOL), components.next)
      else if tag.value == TYPE_VARIABLE then
        var variable := TakeSymbol(limits, input, tag.next);
        Read(Type(TYPE_VARIABLE, [], [], [], variable.value), variable.next)
      else Read(Type(tag.value, [], [], [], NO_SYMBOL), tag.next)
  }

  // ---------------------------------------------------------------------------
  // Ranges of the source's number types

  predicate SizedArgument(a: Argument) {
    (a.payload.Some? ==> Sized(a.payload.value)) && a.value.parameter.id <= MAXIMUM_U64
        && AllOctets(a.value.integer.magnitude)
  }

  predicate SizedArguments(s: seq<Argument>) {
    s == [] || (SizedArgument(s[0]) && SizedArguments(s[1..]))
  }

  predicate SizedTypes(s: seq<Type>) {
    s == [] || (Sized(s[0]) && SizedTypes(s[1..]))
  }

  /** A kind of the enumeration, identities of 64 bits and octets of 8, in every part. */
  predicate Sized(t: Type) {
    t.kind <= TYPE_VARIABLE && t.variable.id <= MAXIMUM_U64 && SizedTypes(t.components) && SizedArguments(t.arguments)
  }

  // ---------------------------------------------------------------------------
  // A written type is read back as its meaning

  lemma ScalarsMeanThemselves(text: Text)
    requires forall i :: 0 <= i < |text| ==> IsUnicodeScalar(text[i])
    ensures TextMeaning(text) == text
  {
  }

  lemma NamesMeanThemselves(name: seq<Text>)
    requires forall i, j :: 0 <= i < |name| && 0 <= j < |name[i]| ==> IsUnicodeScalar(name[i][j])
    ensures NameMeaning(name) == name
  {
    forall i | 0 <= i < |name|
      ensures TextMeaning(name[i]) == name[i]
    {
      ScalarsMeanThemselves(name[i]);
    }
  }

  lemma OctetsMeanThemselves(v: IntegerLiteral)
    requires AllOctets(v.magnitude)
    ensures IntegerMeaning(v) == v
  {
  }

  lemma ValueReadsBack(limits: Limits, o: Output, v: TemplateValue, input: seq<Octet>)
    requires Wrote(o, PutValue(limits, o, v), input) && v.parameter.id <= MAXIMUM_U64 && AllOctets(v.integer.magnitude)
    ensures var after := PutValue(limits, o, v);
            TakeValue(limits, input, At(|o.bytes|)) == Read(Some(ValueMeaning(v)), At(|after.bytes|))
  {
    hide PutByte, TakeByte, PutBoolean, TakeBoolean, PutSymbol, TakeSymbol, PutInteger, TakeInteger, IntegerMeaning,
        TextMeaning;
    var tag := PutByte(limits, o, ValueCode(v.kind));
    ByteReadsBack(limits, o, ValueCode(v.kind), input);
    match v.kind
    case BooleanValue => BooleanReadsBack(limits, tag, v.boolean, input);
    case ParameterValue =>
      SymbolReadsBack(limits, tag, v.parameter, input);
      ScalarsMeanThemselves(v.parameter.spelling);
    case _ =>
      IntegerReadsBack(limits, tag, v.integer, input);
      OctetsMeanThemselves(v.integer);
  }

  lemma {:induction false} ArgumentReadsBack(limits: Limits, o: Output, a: Argument, depth: nat, input: seq<Octet>)
    requires depth <= limits.maximumTypeDepth && Wrote(o, PutArgument(limits, o, a, depth), input) && SizedArgument(a)
    ensures var after := PutArgument(limits, o, a, depth);
            TakeArgument(limits, input, At(|o.bytes|), depth) == Read(Some(ArgumentMeaning(a)), At(|after.bytes|))
    decreases a
  {
    hide PutByte, TakeByte, PutValue, TakeValue, PutType, TakeType, ValueMeaning, Meaning, Sized;
    var code := if a.isType then 0 else 1;
    var tag := PutByte(limits, o, code);
    ByteReadsBack(limits, o, code, input);
    if a.isType {
      TypeReadsBack(limits, tag, a.payload.value, depth + 1, input);
    } else {
      ValueReadsBack(limits, tag, a.value, input);
    }
  }

  lemma {:induction false} ArgumentsReadBack(limits: Limits, o: Output, s: seq<Argument>, depth: nat, input: seq<Octet>)
    requires depth <= limits.maximumTypeDepth && Wrote(o, PutArguments(limits, o, s, depth), input) && SizedArguments(s)
    ensures var after := PutArguments(limits, o, s, depth);
            TakeArguments(limits, input, At(|o.bytes|), |s|, depth) == Read(ArgumentsMeaning(s), At(|after.bytes|))
    decreases s
  {
    hide PutArgument, TakeArgument, ArgumentMeaning, SizedArgument;
    if s != [] {
      ArgumentReadsBack(limits, o, s[0], depth, input);
      ArgumentsReadBack(limits, PutArgument(limits, o, s[0], depth), s[1..], depth, input);
    }
  }

  lemma {:induction false} TypesReadBack(limits: Limits, o: Output, s: seq<Type>, depth: nat, input: seq<Octet>)
    requires Wrote(o, PutTypes(limits, o, s, depth), input) && SizedTypes(s)
    ensures var after := PutTypes(limits, o, s, depth);
            TakeTypes(limits, input, At(|o.bytes|), |s|, depth) == Read(TypesMeaning(s), At(|after.bytes|))
    decreases s
  {
    hide PutType, TakeType, Meaning, Sized;
    if s != [] {
      TypeReadsBack(limits, o, s[0], depth, input);
      TypesReadBack(limits, PutType(limits, o, s[0], depth), s[1..], depth, input);
    }
  }

  /** Whatever was written before and follows after, a type that was written is read back, without
      the payload that its kind does not use. */
  lemma {:induction false} TypeReadsBack(limits: Limits, o: Output, t: Type, depth: nat, input: seq<Octet>)
    requires Wrote(o, PutType(limits, o, t, depth), input) && Sized(t)
    ensures var after := PutType(limits, o, t, depth);
            TakeType(limits, input, At(|o.bytes|), depth) == Read(Meaning(t), At(|after.bytes|))
    decreases t
  {
    hide PutByte, TakeByte, PutName, TakeName, PutCount, TakeCount, PutSymbol, TakeSymbol, PutArguments,
        TakeArguments, PutTypes, TakeTypes;
    hide NameMeaning, TextMeaning, ArgumentsMeaning, TypesMeaning, SizedArguments, SizedTypes;
    var tag := PutByte(limits, o, t.kind);
    ByteReadsBack(limits, o, t.kind, input);
    if t.kind == NAMED {
      var name := PutName(limits, tag, t.name);
      NameReadsBack(limits, tag, t.name, input);
      NamesMeanThemselves(t.name);
      CountReadsBack(limits, name, |t.arguments|, limits.maximumOperands, input);
      ArgumentsReadBack(limits, PutCount(limits, name, |t.arguments|, limits.maximumOperands), t.arguments, depth,
          input);
    } else if t.kind == FUNCTION {
      var n := PutCount(limits, tag, |t.components|, limits.maximumParameters + 1);
      CountReadsBack(limits, tag, |t.components|, limits.maximumParameters + 1, input);
      TypesReadBack(limits, n, t.components, depth + 1, input);
      TypesKept(t.components);
    } else if t.kind == TYPE_VARIABLE {
      SymbolReadsBack(limits, tag, t.variable, input);
      ScalarsMeanThemselves(t.variable.spelling);
    }
  }

  lemma TypesKept(s: seq<Type>)
    ensures TypesMeaning(s) == [] <==> s == []
  {
  }

  // ---------------------------------------------------------------------------
  // An accepted reading is the writing of what was read

  lemma ValueWritesBack(limits: Limits, input: seq<Octet>, offset: nat)
    requires Took(limits, input, offset, TakeValue(limits, input, At(offset)).next)
    ensures var r := TakeValue(limits, input, At(offset));
            && r.value.Some?
            && PutValue(limits, Written(input, offset), r.value.value) == Written(input, r.next.offset)
            && r.value.value.parameter.id <= MAXIMUM_U64
            && AllOctets(r.value.value.integer.magnitude)
  {
    hide PutByte, TakeByte, PutBoolean, TakeBoolean, PutSymbol, TakeSymbol, PutInteger, TakeInteger;
    var tag := TakeByte(input, At(offset));
    ByteWritesBack(limits, input, offset);
    assert tag.next == At(tag.next.offset);
    assert ValueCode(KindOfValue(tag.value)) == tag.value;
    match KindOfValue(tag.value)
    case BooleanValue => BooleanWritesBack(limits, input, tag.next.offset);
    case ParameterValue => SymbolWritesBack(limits, input, tag.next.offset);
    case _ => IntegerWritesBack(limits, input, tag.next.offset);
  }

  lemma {:induction false} ArgumentWritesBack(limits: Limits, input: seq<Octet>, offset: nat, depth: nat)
    requires depth <= limits.maximumTypeDepth
      && Took(limits, input, offset, TakeArgument(limits, input, At(offset), depth).next)
    ensures var r := TakeArgument(limits, input, At(offset), depth);
            && r.value.Some?
            && PutArgument(limits, Written(input, offset), r.value.value, depth) == Written(input, r.next.offset)
            && SizedArgument(r.value.value)
    decreases Room(limits, depth), 0, 0
  {
    hide PutByte, TakeByte, PutValue, TakeValue, PutType, TakeType, Sized;
    var tag := TakeByte(input, At(offset));
    ByteWritesBack(limits, input, offset);
    assert tag.next == At(tag.next.offset);
    if tag.value == 0 {
      TypeWritesBack(limits, input, tag.next.offset, depth + 1);
    } else {
      ValueWritesBack(limits, input, tag.next.offset);
    }
  }

  lemma {:induction false} ArgumentsWriteBack(limits: Limits, input: seq<Octet>, offset: nat, count: nat, depth: nat)
    requires depth <= limits.maximumTypeDepth
      && Took(limits, input, offset, TakeArguments(limits, input, At(offset), count, depth).next)
    ensures var r := TakeArguments(limits, input, At(offset), count, depth);
            && PutArguments(limits, Written(input, offset), r.value, depth) == Written(input, r.next.offset)
            && |r.value| == count
            && SizedArguments(r.value)
    decreases Room(limits, depth), 1, count
  {
    hide PutArgument, TakeArgument, SizedArgument;
    if count > 0 {
      var first := TakeArgument(limits, input, At(offset), depth);
      assert first.next.failure.None?;
      ArgumentWritesBack(limits, input, offset, depth);
      assert first.next == At(first.next.offset);
      ArgumentsWriteBack(limits, input, first.next.offset, count - 1, depth);
      var r := TakeArguments(limits, input, At(offset), count, depth);
      assert r.value[1..] == TakeArguments(limits, input, first.next, count - 1, depth).value;
    }
  }

  lemma {:induction false} TypesWriteBack(limits: Limits, input: seq<Octet>, offset: nat, count: nat, depth: nat)
    requires Took(limits, input, offset, TakeTypes(limits, input, At(offset), count, depth).next)
    ensures var r := TakeTypes(limits, input, At(offset), count, depth);
            && PutTypes(limits, Written(input, offset), r.value, depth) == Written(input, r.next.offset)
            && |r.value| == count
            && SizedTypes(r.value)
    decreases Room(limits, depth), 3, count
  {
    hide PutType, TakeType, Sized;
    if count > 0 {
      var first := TakeType(limits, input, At(offset), depth);
      TypeWritesBack(limits, input, offset, depth);
      assert first.next == At(first.next.offset);
      TypesWriteBack(limits, input, first.next.offset, count - 1, depth);
      var r := TakeTypes(limits, input, At(offset), count, depth);
      assert r.value[1..] == TakeTypes(limits, input, first.next, count - 1, depth).value;
    }
  }

  /** A type that was read writes exactly the bytes it was read from. */
  lemma {:induction false} TypeWritesBack(limits: Limits, input: seq<Octet>, offset: nat, depth: nat)
    requires Took(limits, input, offset, TakeType(limits, input, At(offset), depth).next)
    ensures var r := TakeType(limits, input, At(offset), depth);
            && PutType(limits, Written(input, offset), r.value, depth) == Written(input, r.next.offset)
            && Sized(r.value)
    decreases Room(limits, depth), 2, 0
  {
    hide PutByte, TakeByte, PutName, TakeName, PutCount, TakeCount, PutSymbol, TakeSymbol, PutArguments,
        TakeArguments, PutTypes, TakeTypes;
    hide SizedArguments, SizedTypes;
    var tag := TakeByte(input, At(offset));
    ByteWritesBack(limits, input, offset);
    assert tag.next == At(tag.next.offset);
    NothingIsSized();
    if tag.value == NAMED {
      var name := TakeName(limits, input, tag.next);
      NameWritesBack(limits, input, tag.next.offset);
      assert name.next == At(name.next.offset);
      var n := TakeCount(input, name.next, limits.maximumOperands);
      CountWritesBack(limits, input, name.next.offset, limits.maximumOperands);
      assert n.next == At(n.next.offset);
      ArgumentsWriteBack(limits, input, n.next.offset, n.value, depth);
    } else if tag.value == FUNCTION {
      var n := TakeCount(input, tag.next, limits.maximumParameters + 1);
      CountWritesBack(limits, input, tag.next.offset, limits.maximumParameters + 1);
      assert n.next == At(n.next.offset);
      TypesWriteBack(limits, input, n.next.offset, n.value, depth + 1);
    } else if tag.value == TYPE_VARIABLE {
      SymbolWritesBack(limits, input, tag.next.offset);
    }
  }

  lemma NothingIsSized()
    ensures SizedTypes([]) && SizedArguments([])
  {
  }

  // ---------------------------------------------------------------------------
  // The type codec

  /** A type whose fields beyond those its kind uses are empty, in every part. */
  predicate OnlyItsKind(t: Type) {
    && (t.kind == NAMED || (t.name == [] && t.arguments == []))
    && (t.kind == FUNCTION || t.components == [])
    && (t.kind == TYPE_VARIABLE || t.variable == NO_SYMBOL)
    && OnlyTheirKindTypes(t.components)
    && OnlyTheirKind(t.arguments)
  }

  predicate OnlyTheirKindTypes(s: seq<Type>) {
    s == [] || (OnlyItsKind(s[0]) && OnlyTheirKindTypes(s[1..]))
  }

  predicate OnlyTheirKind(s: seq<Argument>) {
    s == [] || (OnlyItsKindArgument(s[0]) && OnlyTheirKind(s[1..]))
  }

  predicate OnlyItsKindArgument(a: Argument) {
    if a.isType then a.value == NO_VALUE && (a.payload.Some? ==> OnlyItsKind(a.payload.value))
    else
      && a.payload.None?
      && (a.value.kind == BooleanValue || !a.value.boolean)
      && (a.value.kind == ParameterValue || a.value.parameter == NO_SYMBOL)
      && (a.value.kind.IntegerValue? || a.value.kind.CharacterValue? || a.value.integer == NO_INTEGER)
  }

  lemma ValueKept(limits: Limits, o: Output, v: TemplateValue, input: seq<Octet>)
    requires Wrote(o, PutValue(limits, o, v), input) && v.parameter.id <= MAXIMUM_U64 && AllOctets(v.integer.magnitude)
    ensures ValueMeaning(v) == v <==> OnlyItsKindArgument(Argument(false, None, v))
  {
    hide PutByte, PutBoolean, PutSymbol, PutInteger, IntegerMeaning, TextMeaning;
    match v.kind
    case BooleanValue =>
    case ParameterValue =>
      SymbolReadsBack(limits, PutByte(limits, o, ValueCode(v.kind)), v.parameter, input);
      ScalarsMeanThemselves(v.parameter.spelling);
    case _ => OctetsMeanThemselves(v.integer);
  }

  lemma {:induction false} ArgumentKept(limits: Limits, o: Output, a: Argument, depth: nat, input: seq<Octet>)
    requires Wrote(o, PutArgument(limits, o, a, depth), input) && SizedArgument(a)
    ensures ArgumentMeaning(a) == a <==> OnlyItsKindArgument(a)
    decreases a
  {
    hide PutByte, PutValue, PutType, ValueMeaning, Meaning, Sized, OnlyItsKind;
    var tag := PutByte(limits, o, if a.isType then 0 else 1);
    if a.isType {
      TypeKept(limits, tag, a.payload.value, depth + 1, input);
    } else {
      ValueKept(limits, tag, a.value, input);
    }
  }

  lemma {:induction false} ArgumentsKept(limits: Limits, o: Output, s: seq<Argument>, depth: nat, input: seq<Octet>)
    requires Wrote(o, PutArguments(limits, o, s, depth), input) && SizedArguments(s)
    ensures ArgumentsMeaning(s) == s <==> OnlyTheirKind(s)
    decreases s
  {
    hide PutArgument, ArgumentMeaning, SizedArgument, OnlyItsKindArgument;
    if s != [] {
      ArgumentKept(limits, o, s[0], depth, input);
      ArgumentsKept(limits, PutArgument(limits, o, s[0], depth), s[1..], depth, input);
      assert s == [s[0]] + s[1..];
    }
  }

  lemma {:induction false} AllKept(limits: Limits, o: Output, s: seq<Type>, depth: nat, input: seq<Octet>)
    requires Wrote(o, PutTypes(limits, o, s, depth), input) && SizedTypes(s)
    ensures TypesMeaning(s) == s <==> OnlyTheirKindTypes(s)
    decreases s
  {
    hide PutType, Meaning, Sized, OnlyItsKind;
    if s != [] {
      TypeKept(limits, o, s[0], depth, input);
      AllKept(limits, PutType(limits, o, s[0], depth), s[1..], depth, input);
      assert s == [s[0]] + s[1..];
    }
  }

  /** A type that can be written is its own meaning exactly when it has no payload to spare. */
  lemma {:induction false} TypeKept(limits: Limits, o: Output, t: Type, depth: nat, input: seq<Octet>)
    requires Wrote(o, PutType(limits, o, t, depth), input) && Sized(t)
    ensures Meaning(t) == t <==> OnlyItsKind(t)
    decreases t
  {
    hide PutByte, PutName, PutCount, PutSymbol, PutArguments, PutTypes;
    hide NameMeaning, TextMeaning, ArgumentsMeaning, TypesMeaning, SizedArguments, SizedTypes, OnlyTheirKind,
        OnlyTheirKindTypes;
    var tag := PutByte(limits, o, t.kind);
    NothingToSpare();
    if t.kind == NAMED {
      var name := PutName(limits, tag, t.name);
      NameReadsBack(limits, tag, t.name, input);
      NamesMeanThemselves(t.name);
      ArgumentsKept(limits, PutCount(limits, name, |t.arguments|, limits.maximumOperands), t.arguments, depth, input);
    } else if t.kind == FUNCTION {
      AllKept(limits, PutCount(limits, tag, |t.components|, limits.maximumParameters + 1), t.components, depth + 1,
          input);
    } else if t.kind == TYPE_VARIABLE {
      SymbolReadsBack(limits, tag, t.variable, input);
      ScalarsMeanThemselves(t.variable.spelling);
    }
  }

  lemma NothingToSpare()
    ensures OnlyTheirKindTypes([]) && OnlyTheirKind([])
  {
  }

  /** A written type is read back as it was exactly when it has no payload to spare. */
  lemma ReadBackUnchanged(limits: Limits, o: Output, t: Type, depth: nat, input: seq<Octet>)
    requires Wrote(o, PutType(limits, o, t, depth), input) && Sized(t)
    ensures TakeType(limits, input, At(|o.bytes|), depth).value == t <==> OnlyItsKind(t)
  {
    TypeReadsBack(limits, o, t, depth, input);
    TypeKept(limits, o, t, depth, input);
  }

  /** A type and its meaning are written alike. */
  lemma MeaningWritesAlike(limits: Limits, o: Output, t: Type, depth: nat)
    requires o.failure.None? && |o.bytes| <= limits.maximumWireBytes && PutType(limits, o, t, depth).failure.None?
      && Sized(t)
    ensures PutType(limits, o, Meaning(t), depth) == PutType(limits, o, t, depth)
  {
    hide PutType, TakeType, Meaning, Sized;
    var after := PutType(limits, o, t, depth);
    TypeReadsBack(limits, o, t, depth, after.bytes);
    TypeWritesBack(limits, after.bytes, |o.bytes|, depth);
    assert Written(after.bytes, |o.bytes|) == o && Written(after.bytes, |after.bytes|) == after;
  }

  /** No writing of a type is the beginning of another type's: two that an input starts with have
      the same length and the same meaning. */
  lemma NoneBeginsAnother(limits: Limits, o: Output, s: Type, t: Type, depth: nat, input: seq<Octet>)
    requires Wrote(o, PutType(limits, o, s, depth), input) && Wrote(o, PutType(limits, o, t, depth), input)
      && Sized(s) && Sized(t)
    ensures Meaning(s) == Meaning(t) && PutType(limits, o, s, depth) == PutType(limits, o, t, depth)
  {
    hide PutType, TakeType, Meaning, Sized;
    TypeReadsBack(limits, o, s, depth, input);
    TypeReadsBack(limits, o, t, depth, input);
    var a, b := PutType(limits, o, s, depth), PutType(limits, o, t, depth);
    assert a.bytes == input[..|a.bytes|] && b.bytes == input[..|b.bytes|];
  }

  /** The wire tells types apart exactly as their textual identity does. */
  lemma WireIsIdentity(limits: Limits, o: Output, s: Type, t: Type, depth: nat)
    requires o.failure.None? && |o.bytes| <= limits.maximumWireBytes && Sized(s) && Sized(t)
    requires PutType(limits, o, s, depth).failure.None? && PutType(limits, o, t, depth).failure.None?
    ensures PutType(limits, o, s, depth) == PutType(limits, o, t, depth) <==> RenderIdentity(s) == RenderIdentity(t)
  {
    hide PutType, Meaning, Sized, RenderIdentity;
    IdentityIsMeaning(s, t);
    MeaningWritesAlike(limits, o, s, depth);
    MeaningWritesAlike(limits, o, t, depth);
    if PutType(limits, o, s, depth) == PutType(limits, o, t, depth) {
      NoneBeginsAnother(limits, o, s, t, depth, PutType(limits, o, s, depth).bytes);
    }
  }

  /** A function type with a name is written without it. */
  lemma SparePayloadIsLost(limits: Limits)
    requires limits.maximumWireBytes >= 6 && limits.maximumTypeDepth >= 1
    ensures var t := Type(FUNCTION, [[]], [UNIT], [], NO_SYMBOL);
            var o := PutType(limits, Output([], None), t, 0);
            o.failure.None? && Sized(t) && TakeType(limits, o.bytes, At(0), 0) == Read(t.(name := []), At(|o.bytes|))
  {
    var t := Type(FUNCTION, [[]], [UNIT], [], NO_SYMBOL);
    var o := Output([], None);
    var after := PutType(limits, o, t, 0);
    var n := PutCount(limits, PutByte(limits, o, FUNCTION), 1, limits.maximumParameters + 1);
    var component := PutType(limits, n, UNIT, 1);
    assert |n.bytes| == 5 && component == PutByte(limits, n, 0);
    assert [UNIT][1..] == [];
    assert after == PutTypes(limits, n, [UNIT], 1) == PutTypes(limits, component, [], 1) == component;
    assert SizedTypes([UNIT][1..]) && Sized(UNIT) by {
      NothingIsSized();
    }
    assert TypesMeaning([UNIT]) == [Meaning(UNIT)] + TypesMeaning([UNIT][1..]) == [UNIT];
    assert Meaning(t) == t.(name := []);
    TypeReadsBack(limits, o, t, 0, after.bytes);
  }
}
