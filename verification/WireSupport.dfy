/** The writer and the reader of the artifact wire (Talac/Artifact/WireSupport.cpp), whose state is
    that of the functions in WireFormat, WireTypes and WireLiterals after every call. */
module WireSupport {
  import opened Wrappers
  import opened TypeIdentity
  import opened WireFormat
  import opened WireTypes
  import opened WireLiterals
  import opened CoreScalars

  class Writer {
    const limits: Limits
    var bytes: seq<Octet>
    var error: Option<Error>

    function State(): Output
      reads this
    {
      Output(bytes, error)
    }

    constructor (limits: Limits)
      ensures this.limits == limits && State() == Output([], None)
    {
      this.limits := limits;
      bytes := [];
      error := None;
    }

    method Fail(kind: ErrorKind)
      modifies this
      ensures State() == Refuse(old(State()), kind)
    {
      if error.None? {
        error := Some(Error(kind, |bytes|));
      }
    }

    method Byte(value: nat)
      modifies this
      ensures State() == PutByte(limits, old(State()), value)
    {
      if error.Some? {
        return;
      }
      if |bytes| >= limits.maximumWireBytes {
        Fail(LimitExceeded);
        return;
      }
      bytes := bytes + [value % 256];
    }

    /** The octets of a number of the given width, the least significant first. */
    method Unsigned(value: nat, width: nat)
      requires width > 0
      modifies this
      ensures State() == PutWord(limits, old(State()), value, width)
    {
      if error.Some? {
        return;
      }
      if |bytes| + width > limits.maximumWireBytes {
        Fail(LimitExceeded);
        return;
      }
      ghost var before := bytes;
      var rest := value;
      for shift := 0 to width
        invariant error.None? && before + LittleEndian(value, width) == bytes + LittleEndian(rest, width - shift)
      {
        bytes := bytes + [rest % 256];
        rest := rest / 256;
      }
    }

    method Boolean(value: bool)
      modifies this
      ensures State() == PutBoolean(limits, old(State()), value)
    {
      Byte(if value then 1 else 0);
    }

    method Count(value: nat, maximum: nat)
      modifies this
      ensures State() == PutCount(limits, old(State()), value, maximum)
    {
      if value > maximum || value > MAXIMUM_U32 {
        Fail(LimitExceeded);
        return;
      }
      Unsigned(value, 4);
    }

    method Text(text: Text)
      modifies this
      ensures State() == PutText(limits, old(State()), text)
    {
      hide PutWord, PutCount;
      Count(|text|, limits.maximumTextScalars);
      ghost var counted := State();
      for i := 0 to |text|
        invariant PutScalars(limits, counted, text) == PutScalars(limits, State(), text[i..])
      {
        if !IsUnicodeScalar(text[i]) {
          Fail(InvalidScalar);
          return;
        }
        Unsigned(text[i], 4);
        assert text[i..][1..] == text[i + 1..];
      }
    }

    method QualifiedName(name: seq<Text>)
      modifies this
      ensures State() == PutName(limits, old(State()), name)
    {
      hide PutText, PutCount;
      Count(|name|, MAXIMUM_NAME_PARTS);
      ghost var counted := State();
      for i := 0 to |name|
        invariant PutTexts(limits, counted, name) == PutTexts(limits, State(), name[i..])
      {
        Text(name[i]);
        assert name[i..][1..] == name[i + 1..];
      }
    }

    method Symbol(symbol: SymbolName)
      modifies this
      ensures State() == PutSymbol(limits, old(State()), symbol)
    {
      if symbol.id == 0 {
        Fail(InvalidSymbol);
        return;
      }
      Unsigned(symbol.id, 8);
      Text(symbol.spelling);
    }

    /** The count and the octets of a magnitude or spelling. */
    method Octets(octets: seq<nat>)
      modifies this
      ensures State() == PutCounted(limits, old(State()), octets)
    {
      hide PutByte, PutCount;
      Count(|octets|, limits.maximumNumericBytes);
      ghost var counted := State();
      for i := 0 to |octets|
        invariant PutOctets(limits, counted, octets) == PutOctets(limits, State(), octets[i..])
      {
        Byte(octets[i]);
        assert octets[i..][1..] == octets[i + 1..];
      }
    }

    method Integer(v: IntegerLiteral)
      modifies this
      ensures State() == PutInteger(limits, old(State()), v)
    {
      Boolean(v.negative);
      Octets(v.magnitude);
    }

    method TemplateArgument(argument: Argument, depth: nat)
      modifies this
      ensures State() == PutArgument(limits, old(State()), argument, depth)
      decreases argument, 0
    {
      hide PutByte, PutBoolean, PutSymbol, PutInteger, PutType;
      Byte(if argument.isType then 0 else 1);
      if argument.isType {
        if argument.payload.None? {
          Fail(InvalidModel);
          return;
        }
        Type(argument.payload.value, depth + 1);
        return;
      }
      var value := argument.value;
      Byte(ValueCode(value.kind));
      if value.kind.BooleanValue? {
        Boolean(value.boolean);
      } else if value.kind.ParameterValue? {
        Symbol(value.parameter);
      } else if !IsCanonical(value.integer) {
        Fail(InvalidInteger);
      } else {
        Integer(value.integer);
      }
    }

    method TemplateArguments(arguments: seq<Argument>, depth: nat)
      modifies this
      ensures State() == PutArguments(limits, old(State()), arguments, depth)
      decreases arguments, 1
    {
      hide PutArgument;
      for i := 0 to |arguments|
        invariant PutArguments(limits, old(State()), arguments, depth)
          == PutArguments(limits, State(), arguments[i..], depth)
      {
        TemplateArgument(arguments[i], depth);
        assert arguments[i..][1..] == arguments[i + 1..];
      }
    }

    method Components(components: seq<TypeIdentity.Type>, depth: nat)
      modifies this
      ensures State() == PutTypes(limits, old(State()), components, depth)
      decreases components, 1
    {
      hide PutType;
      for i := 0 to |components|
        invariant PutTypes(limits, old(State()), components, depth) == PutTypes(limits, State(), components[i..], depth)
      {
        Type(components[i], depth);
        assert components[i..][1..] == components[i + 1..];
      }
    }

    method Type(t: TypeIdentity.Type, depth: nat)
      modifies this
      ensures State() == PutType(limits, old(State()), t, depth)
      decreases t, 2
    {
      hide PutByte, PutName, PutCount, PutSymbol, PutArguments, PutTypes;
      if depth > limits.maximumTypeDepth {
        Fail(LimitExceeded);
        return;
      }
      Byte(t.kind);
      if t.kind == NAMED {
        QualifiedName(t.name);
        if t.components != [] {
          Fail(InvalidModel);
          return;
        }
        Count(|t.arguments|, limits.maximumOperands);
        TemplateArguments(t.arguments, depth);
      } else if t.kind == FUNCTION {
        if t.components == [] {
          Fail(InvalidModel);
          return;
        }
        Count(|t.components|, limits.maximumParameters + 1);
        Components(t.components, depth + 1);
      } else if t.kind == TYPE_VARIABLE {
        Symbol(t.variable);
      } else if t.name != [] || t.components != [] || t.arguments != [] || t.variable.id != 0 {
        Fail(InvalidModel);
      }
    }

    method Literal(l: WireLiterals.Literal, t: TypeIdentity.Type)
      modifies this
      ensures State() == PutLiteral(limits, old(State()), l, t)
    {
      hide PutByte, PutBoolean, PutInteger, PutCounted, PutText, Accepts, FromSigned;
      if !Accepts(l, t) {
        Fail(InvalidModel);
        return;
      }
      match l
      case EmptyPayload => Byte(0);
      case BooleanPayload(b) =>
        Byte(1);
        Boolean(b);
      case Signed64(n) =>
        Byte(2);
        Integer(FromSigned(n));
      case Signed32(n) =>
        Byte(2);
        Integer(FromSigned(n));
      case IntegerPayload(v) =>
        Byte(2);
        Integer(v);
      case FloatingPayload(s) =>
        Byte(3);
        Octets(s);
      case TextPayload(s) =>
        Byte(4);
        Text(s);
    }
  }

  class Reader {
    const input: seq<Octet>
    const limits: Limits
    var offset: nat
    var error: Option<Error>

    function State(): Cursor
      reads this
    {
      Cursor(offset, error)
    }

    constructor (input: seq<Octet>, limits: Limits)
      ensures this.input == input && this.limits == limits
      ensures State() == if |input| > limits.maximumWireBytes then Reject(At(0), LimitExceeded) else At(0)
    {
      this.input := input;
      this.limits := limits;
      offset := 0;
      error := None;
      new;
      if |input| > limits.maximumWireBytes {
        Fail(LimitExceeded);
      }
    }

    method Fail(kind: ErrorKind)
      modifies this
      ensures State() == Reject(old(State()), kind)
    {
      if error.None? {
        error := Some(Error(kind, offset));
      }
    }

    method Byte() returns (value: Octet)
      modifies this
      ensures Read(value, State()) == TakeByte(input, old(State()))
    {
      if error.Some? {
        return 0;
      }
      if offset >= |input| {
        Fail(TruncatedInput);
        return 0;
      }
      value := input[offset];
      offset := offset + 1;
    }

    method Unsigned(width: nat) returns (value: nat)
      modifies this
      ensures Read(value, State()) == TakeWord(input, old(State()), width)
    {
      hide TakeByte;
      value := 0;
      var weight: nat := 1;
      ghost var whole := TakeWord(input, State(), width);
      for shift := 0 to width
        invariant var rest := TakeWord(input, State(), width - shift);
                  whole == Read(value + weight * rest.value, rest.next)
      {
        ghost var high := TakeWord(input, TakeByte(input, State()).next, width - shift - 1);
        var low := Byte();
        Weighed(value, weight, low, high.value);
        value := value + weight * low;
        weight := weight * 256;
      }
    }

    method Boolean() returns (value: bool)
      modifies this
      ensures Read(value, State()) == TakeBoolean(input, old(State()))
    {
      var b := Byte();
      if error.None? && b > 1 {
        Fail(InvalidBoolean);
      }
      value := b == 1;
    }

    method Count(maximum: nat) returns (value: nat)
      modifies this
      ensures Read(value, State()) == TakeCount(input, old(State()), maximum)
    {
      hide TakeWord;
      value := Unsigned(4);
      if error.None? && value > maximum {
        Fail(LimitExceeded);
      }
      value := if error.Some? then 0 else value;
    }

    method Text() returns (value: Text)
      modifies this
      ensures Read(value, State()) == TakeText(limits, input, old(State()))
    {
      hide TakeWord, TakeCount, Followed;
      var count := Count(limits.maximumTextScalars);
      ghost var whole := TakeScalars(input, State(), count);
      value := [];
      var index := 0;
      FollowedAll(whole);
      while index < count && error.None?
        invariant index <= count
        invariant whole == Followed(value, TakeScalars(input, State(), count - index))
        decreases count - index, if error.None? then 1 else 0
      {
        var scalar := Unsigned(4);
        if !IsUnicodeScalar(scalar) {
          Fail(InvalidScalar);
        } else {
          FollowedOne(value, scalar, TakeScalars(input, State(), count - index - 1));
          value := value + [scalar];
        }
        index := index + 1;
      }
      FollowedNone(value, State());
    }

    method QualifiedName() returns (value: seq<Text>)
      modifies this
      ensures Read(value, State()) == TakeName(limits, input, old(State()))
    {
      hide TakeText, TakeCount, Followed;
      var count := Count(MAXIMUM_NAME_PARTS);
      ghost var whole := TakeTexts(limits, input, State(), count);
      value := [];
      var index := 0;
      FollowedAll(whole);
      while index < count && error.None?
        invariant index <= count
        invariant whole == Followed(value, TakeTexts(limits, input, State(), count - index))
      {
        var part := Text();
        FollowedOne(value, part, TakeTexts(limits, input, State(), count - index - 1));
        value := value + [part];
        index := index + 1;
      }
      FollowedNone(value, State());
    }

    method Symbol() returns (value: SymbolName)
      modifies this
      ensures Read(value, State()) == TakeSymbol(limits, input, old(State()))
    {
      hide TakeWord, TakeText;
      var id := Unsigned(8);
      if error.None? && id == 0 {
        Fail(InvalidSymbol);
      }
      var spelling := Text();
      value := SymbolName(id, spelling);
    }

    method Octets() returns (value: seq<nat>)
      modifies this
      ensures Read(value, State()) == TakeCounted(limits, input, old(State()))
    {
      hide TakeByte, TakeCount, Followed;
      var count := Count(limits.maximumNumericBytes);
      ghost var whole := TakeOctets(input, State(), count);
      value := [];
      var index := 0;
      FollowedAll(whole);
      while index < count && error.None?
        invariant index <= count
        invariant whole == Followed(value, TakeOctets(input, State(), count - index))
      {
        var octet := Byte();
        FollowedOne(value, octet, TakeOctets(input, State(), count - index - 1));
        value := value + [octet];
        index := index + 1;
      }
      FollowedNone(value, State());
    }

    method Integer() returns (value: IntegerLiteral)
      modifies this
      ensures Read(value, State()) == TakeInteger(limits, input, old(State()))
    {
      hide TakeBoolean, TakeCounted;
      var negative := Boolean();
      var magnitude := Octets();
      value := IntegerLiteral(negative, magnitude);
      if error.None? && !IsCanonical(value) {
        Fail(InvalidInteger);
      }
    }

    method TemplateArguments(count: nat, depth: nat) returns (arguments: seq<Argument>)
      requires depth <= limits.maximumTypeDepth
      modifies this
      ensures Read(arguments, State()) == TakeArguments(limits, input, old(State()), count, depth)
      decreases Room(limits, depth), 1
    {
      hide TakeArgument, Followed;
      ghost var whole := TakeArguments(limits, input, State(), count, depth);
      arguments := [];
      var index := 0;
      FollowedAll(whole);
      while index < count && error.None?
        invariant index <= count
        invariant whole == Followed(arguments, TakeArguments(limits, input, State(), count - index, depth))
      {
        var argument := TemplateArgument(depth);
        if argument.None? {
          break;
        }
        FollowedOne(arguments, argument.value, TakeArguments(limits, input, State(), count - index - 1, depth));
        arguments := arguments + [argument.value];
        index := index + 1;
      }
      FollowedNone(arguments, State());
    }

    method TemplateArgument(depth: nat) returns (argument: Option<Argument>)
      requires depth <= limits.maximumTypeDepth
      modifies this
      ensures Read(argument, State()) == TakeArgument(limits, input, old(State()), depth)
      decreases Room(limits, depth), 0
    {
      hide TakeByte, TakeBoolean, TakeSymbol, TakeInteger, TakeType;
      var argumentKind := Byte();
      if argumentKind == 0 {
        var t := Type(depth + 1);
        return Some(Argument(true, Some(t), NO_VALUE));
      }
      if argumentKind != 1 {
        Fail(InvalidTag);
        return None;
      }
      var valueKindByte := Byte();
      if valueKindByte > 3 {
        Fail(InvalidTag);
        return None;
      }
      var valueKind := KindOfValue(valueKindByte);
      var value: TemplateValue;
      if valueKind == BooleanValue {
        var b := Boolean();
        value := TemplateValue(BooleanValue, NO_INTEGER, b, NO_SYMBOL);
      } else if valueKind == ParameterValue {
        var s := Symbol();
        value := TemplateValue(ParameterValue, NO_INTEGER, false, s);
      } else {
        var v := Integer();
        value := TemplateValue(valueKind, v, false, NO_SYMBOL);
      }
      argument := Some(Argument(false, None, value));
    }

    method Components(count: nat, depth: nat) returns (components: seq<TypeIdentity.Type>)
      modifies this
      ensures Read(components, State()) == TakeTypes(limits, input, old(State()), count, depth)
      decreases Room(limits, depth), 3
    {
      hide TakeType, Followed;
      ghost var whole := TakeTypes(limits, input, State(), count, depth);
      components := [];
      var index := 0;
      FollowedAll(whole);
      while index < count && error.None?
        invariant index <= count
        invariant whole == Followed(components, TakeTypes(limits, input, State(), count - index, depth))
      {
        var component := Type(depth);
        FollowedOne(components, component, TakeTypes(limits, input, State(), count - index - 1, depth));
        components := components + [component];
        index := index + 1;
      }
      FollowedNone(components, State());
    }

    method Type(depth: nat) returns (t: TypeIdentity.Type)
      modifies this
      ensures Read(t, State()) == TakeType(limits, input, old(State()), depth)
      decreases Room(limits, depth), 2
    {
      hide TakeByte, TakeName, TakeCount, TakeSymbol, TakeArguments, TakeTypes;
      if depth > limits.maximumTypeDepth {
        Fail(LimitExceeded);
        return UNIT;
      }
      var tag := Byte();
      if tag > TYPE_VARIABLE {
        Fail(InvalidTag);
        return UNIT;
      }
      if tag == NAMED {
        var name := QualifiedName();
        var count := Count(limits.maximumOperands);
        var arguments := TemplateArguments(count, depth);
        return TypeIdentity.Type(NAMED, name, [], arguments, NO_SYMBOL);
      }
      if tag == FUNCTION {
        var count := Count(limits.maximumParameters + 1);
        if error.None? && count == 0 {
          Fail(InvalidModel);
        }
        var components := Components(count, depth + 1);
        if components == [] {
          return UNIT;
        }
        return TypeIdentity.Type(FUNCTION, [], components, [], NO_SYMBOL);
      }
      if tag == TYPE_VARIABLE {
        var variable := Symbol();
        return TypeIdentity.Type(TYPE_VARIABLE, [], [], [], variable);
      }
      t := TypeIdentity.Type(tag, [], [], [], NO_SYMBOL);
    }

    /** The counted characters of a floating-point spelling. */
    method Characters() returns (spelling: seq<nat>)
      modifies this
      ensures var n := TakeCount(input, old(State()), limits.maximumNumericBytes);
              Read(spelling, State()) == TakeCharacters(input, n.next, n.value)
    {
      hide TakeByte, TakeCount, Followed;
      var count := Count(limits.maximumNumericBytes);
      ghost var whole := TakeCharacters(input, State(), count);
      spelling := [];
      var index := 0;
      FollowedAll(whole);
      while index < count && error.None?
        invariant index <= count
        invariant whole == Followed(spelling, TakeCharacters(input, State(), count - index))
      {
        var character := Byte();
        if character > 0x7f {
          Fail(InvalidInteger);
        } else {
          FollowedOne(spelling, character, TakeCharacters(input, State(), count - index - 1));
          spelling := spelling + [character];
        }
        index := index + 1;
      }
      FollowedNone(spelling, State());
    }

    method Literal(t: TypeIdentity.Type) returns (l: WireLiterals.Literal)
      modifies this
      ensures Read(l, State()) == TakeLiteral(limits, input, old(State()), t)
    {
      hide TakeByte, TakeBoolean, TakeInteger, TakeCount, TakeCharacters, TakeText, Accepts;
      var tag := Byte();
      if tag == 0 {
        l := EmptyPayload;
      } else if tag == 1 {
        var b := Boolean();
        l := BooleanPayload(b);
      } else if tag == 2 {
        var v := Integer();
        l := IntegerPayload(v);
      } else if tag == 3 {
        var s := Characters();
        l := FloatingPayload(s);
      } else if tag == 4 {
        var s := Text();
        l := TextPayload(s);
      } else {
        Fail(InvalidTag);
        l := EmptyPayload;
      }
      if error.None? && !Accepts(l, t) {
        Fail(InvalidModel);
      }
    }
  }

  /** What has been read, followed by what is still to be read. */
  function Followed<T>(done: seq<T>, rest: Read<seq<T>>): Read<seq<T>> {
    Read(done + rest.value, rest.next)
  }

  lemma FollowedOne<T>(done: seq<T>, one: T, rest: Read<seq<T>>)
    ensures Followed(done, Read([one] + rest.value, rest.next)) == Followed(done + [one], rest)
  {
    assert done + ([one] + rest.value) == done + [one] + rest.value;
  }

  lemma FollowedNone<T>(done: seq<T>, next: Cursor)
    ensures Followed(done, Read([], next)) == Read(done, next)
  {
    assert done + [] == done;
  }

  lemma FollowedAll<T>(whole: Read<seq<T>>)
    ensures Followed([], whole) == whole
  {
    assert [] + whole.value == whole.value;
  }

  lemma Weighed(value: nat, weight: nat, low: nat, high: nat)
    ensures value + weight * (low + 256 * high) == value + weight * low + weight * 256 * high
  {
  }
}
