/** Typed literals on the artifact wire (Talac/Artifact/WireSupport.cpp): integers of the two older
    forms come back as canonical ones of the same value, everything else as it was. */
module WireLiterals {
  import opened Wrappers
  import opened TypeIdentity
  import opened WireFormat
  import opened CoreScalars

  datatype Literal =
    | EmptyPayload
    | BooleanPayload(boolean: bool)
    | Signed64(number: int)
    | Signed32(number: int)
    | IntegerPayload(integer: IntegerLiteral)
    | FloatingPayload(spelling: seq<nat>)
    | TextPayload(text: Text)

  /** Numbers of 64 and 32 bits, and octets and characters of 8. */
  predicate SizedLiteral(l: Literal) {
    match l
    case Signed64(n) => -HALF <= n < HALF
    case Signed32(n) => -0x8000_0000 <= n < 0x8000_0000
    case IntegerPayload(v) => AllOctets(v.magnitude)
    case FloatingPayload(s) => AllOctets(s)
    case _ => true
  }

  /** What the wire carries: one form of integer. */
  function Stored(l: Literal): Literal {
    match l
    case Signed64(n) => IntegerPayload(FromSigned(n))
    case Signed32(n) => IntegerPayload(FromSigned(n))
    case _ => l
  }

  /** The number of a literal in any integer form. */
  function NumberOfLiteral(l: Literal): Option<int> {
    match l
    case Signed64(n) => Some(n)
    case Signed32(n) => Some(n)
    case IntegerPayload(v) => Some(NumberOf(v))
    case _ => None
  }

  predicate Accepts(l: Literal, t: Type) {
    match l
    case EmptyPayload => t.kind == UNIT_KIND || t.kind == NAMED || t.kind == STRING_KIND || t.kind == FUNCTION
    case BooleanPayload(_) => t.kind == BOOL_KIND
    case Signed64(n) => IntegerFits(FromSigned(n), t.kind)
    case Signed32(n) => IntegerFits(FromSigned(n), t.kind)
    case IntegerPayload(v) => IntegerFits(v, t.kind)
    case FloatingPayload(s) => Describe(t.kind).Some? && Describe(t.kind).value.family == FloatingScalar
        && FloatingIsValid(s)
    case TextPayload(_) => t.kind == STRING_KIND
  }

  // ---------------------------------------------------------------------------
  // Writing and reading

  function PutLiteral(limits: Limits, o: Output, l: Literal, t: Type): (r: Output)
    ensures Grows(limits, o, r)
  {
    if !Accepts(l, t) then Refuse(o, InvalidModel)
    else
      match l
      case EmptyPayload => PutByte(limits, o, 0)
      case BooleanPayload(b) => PutBoolean(limits, PutByte(limits, o, 1), b)
      case Signed64(n) => PutInteger(limits, PutByte(limits, o, 2), FromSigned(n))
      case Signed32(n) => PutInteger(limits, PutByte(limits, o, 2), FromSigned(n))
      case IntegerPayload(v) => PutInteger(limits, PutByte(limits, o, 2), v)
      case FloatingPayload(s) => PutCounted(limits, PutByte(limits, o, 3), s)
      case TextPayload(s) => PutText(limits, PutByte(limits, o, 4), s)
  }

  function TakeCharacters(input: seq<Octet>, c: Cursor, count: nat): (r: Read<seq<nat>>)
    ensures Moves(input, c, r.next)
    decreases count
  {
    if count == 0 || c.failure.Some? then Read([], c)
    else
      var character := TakeByte(input, c);
      if character.value > 0x7f then Read([], Reject(character.next, InvalidInteger))
      else
        var rest := TakeCharacters(input, character.next, count - 1);
        Read([character.value] + rest.value, rest.next)
  }

  function TakePayload(limits: Limits, input: seq<Octet>, c: Cursor): (r: Read<Literal>)
    ensures Moves(input, c, r.next)
  {
    var tag := TakeByte(input, c);
    match tag.value
    case 0 => Read(EmptyPayload, tag.next)
    case 1 =>
      var b := TakeBoolean(input, tag.next);
      Read(BooleanPayload(b.value), b.next)
    case 2 =>
      var v := TakeInteger(limits, input, tag.next);
      Read(IntegerPayload(v.value), v.next)
    case 3 =>
      var n := TakeCount(input, tag.next, limits.maximumNumericBytes);
      var s := TakeCharacters(input, n.next, n.value);
      Read(FloatingPayload(s.value), s.next)
    case 4 =>
      var s := TakeText(limits, input, tag.next);
      Read(TextPayload(s.value), s.next)
    case _ => Read(EmptyPayload, Reject(tag.next, InvalidTag))
  }

  function TakeLiteral(limits: Limits, input: seq<Octet>, c: Cursor, t: Type): (r: Read<Literal>)
    ensures Moves(input, c, r.next)
  {
    var payload := TakePayload(limits, input, c);
    Read(payload.value, if Accepts(payload.value, t) then payload.next else Reject(payload.next, InvalidModel))
  }

  // ---------------------------------------------------------------------------
  // Round trips

  lemma {:induction false} CharactersReadBack(limits: Limits, o: Output, s: seq<nat>, input: seq<Octet>)
    requires Wrote(o, PutOctets(limits, o, s), input) && IsAscii(s)
    ensures var after := PutOctets(limits, o, s);
            TakeCharacters(input, At(|o.bytes|), |s|) == Read(s, At(|after.bytes|))
    decreases s
  {
    if s != [] {
      ByteReadsBack(limits, o, s[0], input);
      CharactersReadBack(limits, PutByte(limits, o, s[0]), s[1..], input);
      assert s == [s[0]] + s[1..];
    }
  }

  lemma {:induction false} CharactersWriteBack(limits: Limits, input: seq<Octet>, offset: nat, count: nat)
    requires Took(limits, input, offset, TakeCharacters(input, At(offset), count).next)
    ensures var r := TakeCharacters(input, At(offset), count);
            PutOctets(limits, Written(input, offset), r.value) == Written(input, r.next.offset) && |r.value| == count
                && IsAscii(r.value)
    decreases count
  {
    if count > 0 {
      var first := TakeByte(input, At(offset));
      assert first.next.failure.None?;
      ByteWritesBack(limits, input, offset);
      assert first.next == At(first.next.offset);
      CharactersWriteBack(limits, input, first.next.offset, count - 1);
      var r := TakeCharacters(input, At(offset), count);
      assert r.value[1..] == TakeCharacters(input, first.next, count - 1).value;
    }
  }

  lemma StoredIsAccepted(l: Literal, t: Type)
    ensures Accepts(Stored(l), t) == Accepts(l, t)
  {
  }

  lemma IntegerLiteralReadsBack(limits: Limits, o: Output, v: IntegerLiteral, t: Type, input: seq<Octet>)
    requires Wrote(o, PutInteger(limits, PutByte(limits, o, 2), v), input) && AllOctets(v.magnitude)
      && IntegerFits(v, t.kind)
    ensures var after := PutInteger(limits, PutByte(limits, o, 2), v);
            TakeLiteral(limits, input, At(|o.bytes|), t) == Read(IntegerPayload(v), At(|after.bytes|))
  {
    hide PutInteger, TakeInteger, PutByte, TakeByte, TakeBoolean, TakeText, TakeCharacters, TakeCount;
    assert IsCanonical(v);
    ByteReadsBack(limits, o, 2, input);
    IntegerReadsBack(limits, PutByte(limits, o, 2), v, input);
  }

  /** A written literal is read back, an integer in its one stored form. */
  lemma LiteralReadsBack(limits: Limits, o: Output, l: Literal, t: Type, input: seq<Octet>)
    requires Wrote(o, PutLiteral(limits, o, l, t), input) && SizedLiteral(l)
    ensures var after := PutLiteral(limits, o, l, t);
            TakeLiteral(limits, input, At(|o.bytes|), t) == Read(Stored(l), At(|after.bytes|))
  {
    hide PutInteger, TakeInteger, PutByte, TakeByte, PutBoolean, TakeBoolean, PutText, TakeText, PutOctets,
        TakeCharacters, PutCount, TakeCount;
    hide FloatingIsValid, IntegerFits, FromSigned, Describe;
    match l
    case EmptyPayload => ByteReadsBack(limits, o, 0, input);
    case BooleanPayload(b) =>
      ByteReadsBack(limits, o, 1, input);
      BooleanReadsBack(limits, PutByte(limits, o, 1), b, input);
    case Signed64(n) => IntegerLiteralReadsBack(limits, o, FromSigned(n), t, input);
    case Signed32(n) => IntegerLiteralReadsBack(limits, o, FromSigned(n), t, input);
    case IntegerPayload(v) => IntegerLiteralReadsBack(limits, o, v, t, input);
    case FloatingPayload(s) =>
      var tag := PutByte(limits, o, 3);
      FloatingIsAscii(s);
      ByteReadsBack(limits, o, 3, input);
      CountReadsBack(limits, tag, |s|, limits.maximumNumericBytes, input);
      CharactersReadBack(limits, PutCount(limits, tag, |s|, limits.maximumNumericBytes), s, input);
    case TextPayload(s) =>
      ByteReadsBack(limits, o, 4, input);
      TextReadsBack(limits, PutByte(limits, o, 4), s, input);
  }

  /** The stored form keeps the number, and is the literal itself but for the two older forms. */
  lemma StoredKeepsNumber(l: Literal)
    requires SizedLiteral(l)
    ensures NumberOfLiteral(Stored(l)) == NumberOfLiteral(l)
    ensures Stored(l) == l <==> !(l.Signed64? || l.Signed32?)
    ensures (l.Signed64? || l.Signed32?) ==> Stored(l).IntegerPayload? && IsCanonical(Stored(l).integer)
  {
    match l
    case Signed64(n) => FromSignedIsValue(n);
    case Signed32(n) => FromSignedIsValue(n);
    case _ =>
  }

  /** An integer literal is accepted exactly when its number belongs to the type. */
  lemma AcceptedByValue(l: Literal, t: Type)
    requires SizedLiteral(l) && (l.IntegerPayload? ==> IsCanonical(l.integer)) && NumberOfLiteral(l).Some?
    ensures Accepts(l, t) <==> InRange(NumberOfLiteral(l).value, t.kind)
  {
    StoredKeepsNumber(l);
    StoredIsAccepted(l, t);
    hide IntegerFits, InRange, FromSigned;
    FitsIsRange(Stored(l).integer, t.kind);
  }

  /** A literal that was read writes exactly the bytes it was read from. */
  lemma LiteralWritesBack(limits: Limits, input: seq<Octet>, offset: nat, t: Type)
    requires Took(limits, input, offset, TakeLiteral(limits, input, At(offset), t).next)
    ensures var r := TakeLiteral(limits, input, At(offset), t);
            && PutLiteral(limits, Written(input, offset), r.value, t) == Written(input, r.next.offset)
            && SizedLiteral(r.value) && Stored(r.value) == r.value
  {
    hide PutInteger, TakeInteger, PutByte, TakeByte, PutBoolean, TakeBoolean, PutText, TakeText, PutOctets,
        TakeCharacters, PutCount, TakeCount;
    hide FloatingIsValid, IntegerFits, FromSigned, Describe;
    var tag := TakeByte(input, At(offset));
    ByteWritesBack(limits, input, offset);
    assert tag.next == At(tag.next.offset);
    match tag.value
    case 0 =>
    case 1 => BooleanWritesBack(limits, input, tag.next.offset);
    case 2 => IntegerWritesBack(limits, input, tag.next.offset);
    case 3 =>
      var n := TakeCount(input, tag.next, limits.maximumNumericBytes);
      CountWritesBack(limits, input, tag.next.offset, limits.maximumNumericBytes);
      assert n.next == At(n.next.offset);
      CharactersWriteBack(limits, input, n.next.offset, n.value);
    case 4 => TextWritesBack(limits, input, tag.next.offset);
    case _ =>
  }
}
