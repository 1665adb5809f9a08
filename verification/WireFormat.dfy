/** The fields of the artifact wire format (Talac/Artifact/WireSupport.cpp): what a writer appends
    and what a reader takes, both up to their first error. A successful write is read back and a
    successful read writes the same bytes again. */
module WireFormat {
  import opened Wrappers
  import opened TypeIdentity

  type Octet = n: nat | n < 256

  datatype ErrorKind =
    | InvalidMagic
    | UnsupportedVersion
    | TruncatedInput
    | TrailingInput
    | InvalidTag
    | InvalidBoolean
    | InvalidScalar
    | InvalidSymbol
    | InvalidInteger
    | LimitExceeded
    | InvalidModel

  datatype Error = Error(kind: ErrorKind, offset: nat)

  datatype Limits = Limits(
    maximumWireBytes: nat,
    maximumTextScalars: nat,
    maximumParameters: nat,
    maximumOperands: nat,
    maximumTypeDepth: nat,
    maximumNumericBytes: nat)

  const MAXIMUM_U32: nat := 0xffff_ffff
  const MAXIMUM_U64: nat := 0xffff_ffff_ffff_ffff
  const MAXIMUM_NAME_PARTS: nat := 65535

  predicate IsUnicodeScalar(scalar: nat) {
    scalar <= 0x10ffff && !(0xd800 <= scalar <= 0xdfff)
  }

  /** No leading zero octets, and no negative zero. */
  predicate IsCanonical(v: IntegerLiteral) {
    if v.magnitude == [] then !v.negative else v.magnitude[0] != 0
  }

  // ---------------------------------------------------------------------------
  // Fixed-width numbers

  function LittleEndian(value: nat, width: nat): (bytes: seq<Octet>)
    ensures |bytes| == width
  {
    if width == 0 then [] else [value % 256] + LittleEndian(value / 256, width - 1)
  }

  function Power256(width: nat): (p: nat)
    ensures p > 0
  {
    if width == 0 then 1 else 256 * Power256(width - 1)
  }

  /** The octet at a place is that digit of the number to the base 256. */
  lemma {:induction false} LittleEndianAt(value: nat, width: nat, k: nat)
    requires k < width
    ensures LittleEndian(value, width)[k] == value / Power256(k) % 256
    decreases width
  {
    if k > 0 {
      LittleEndianAt(value / 256, width - 1, k - 1);
      QuotientOfQuotient(value, Power256(k - 1));
    }
  }

  lemma QuotientOfQuotient(n: nat, b: nat)
    requires b > 0
    ensures n / 256 / b == n / (256 * b)
  {
    var q := n / 256;
    var s, t := q / b, q % b;
    assert q == b * s + t;
    Associates(b, s);
    DivisionIs(n, 256 * b, s, 256 * t + n % 256);
  }

  lemma Associates(b: nat, s: nat)
    ensures (256 * b) * s == 256 * (b * s)
  {
  }

  lemma DivisionIs(n: nat, d: nat, q: nat, r: nat)
    requires n == d * q + r && r < d
    ensures n / d == q
  {
    var p, s := n / d, n % d;
    assert d * p + s == d * q + r;
    assert p < q ==> d * (p + 1) <= d * q;
    assert q < p ==> d * (q + 1) <= d * p;
  }

  // ---------------------------------------------------------------------------
  // Writing

  /** What a writer has produced, and its first error. */
  datatype Output = Output(bytes: seq<Octet>, failure: Option<Error>)

  /** Written bytes stay, the limit is kept, and nothing happens after the first error. */
  predicate Grows(limits: Limits, o: Output, after: Output) {
    && o.bytes <= after.bytes
    && (o.failure.Some? ==> after == o)
    && (|o.bytes| <= limits.maximumWireBytes ==> |after.bytes| <= limits.maximumWireBytes)
  }

  function Refuse(o: Output, kind: ErrorKind): (r: Output)
    ensures r.failure.Some? && r.bytes == o.bytes && (o.failure.Some? ==> r == o)
  {
    if o.failure.Some? then o else o.(failure := Some(Error(kind, |o.bytes|)))
  }

  /** A field is written whole or not at all. */
  function Append(limits: Limits, o: Output, field: seq<Octet>): (r: Output)
    ensures Grows(limits, o, r)
    ensures r.failure.None? ==> r.bytes == o.bytes + field && |r.bytes| <= limits.maximumWireBytes
  {
    if o.failure.Some? then o
    else if |o.bytes| + |field| > limits.maximumWireBytes then Refuse(o, LimitExceeded)
    else o.(bytes := o.bytes + field)
  }

  function PutByte(limits: Limits, o: Output, value: nat): (r: Output)
    ensures Grows(limits, o, r)
  {
    Append(limits, o, [value % 256])
  }

  function PutWord(limits: Limits, o: Output, value: nat, width: nat): (r: Output)
    ensures Grows(limits, o, r)
  {
    Append(limits, o, LittleEndian(value, width))
  }

  function PutBoolean(limits: Limits, o: Output, value: bool): (r: Output)
    ensures Grows(limits, o, r)
  {
    PutByte(limits, o, if value then 1 else 0)
  }

  function PutCount(limits: Limits, o: Output, value: nat, maximum: nat): (r: Output)
    ensures Grows(limits, o, r)
  {
    if value > maximum || value > MAXIMUM_U32 then Refuse(o, LimitExceeded) else PutWord(limits, o, value, 4)
  }

  function PutScalars(limits: Limits, o: Output, text: Text): (r: Output)
    ensures Grows(limits, o, r)
    decreases text
  {
    if text == [] then o
    else if !IsUnicodeScalar(text[0]) then Refuse(o, InvalidScalar)
    else PutScalars(limits, PutWord(limits, o, text[0], 4), text[1..])
  }

  function PutText(limits: Limits, o: Output, text: Text): (r: Output)
    ensures Grows(limits, o, r)
  {
    PutScalars(limits, PutCount(limits, o, |text|, limits.maximumTextScalars), text)
  }

  function PutTexts(limits: Limits, o: Output, parts: seq<Text>): (r: Output)
    ensures Grows(limits, o, r)
    decreases parts
  {
    if parts == [] then o else PutTexts(limits, PutText(limits, o, parts[0]), parts[1..])
  }

  function PutName(limits: Limits, o: Output, name: seq<Text>): (r: Output)
    ensures Grows(limits, o, r)
  {
    PutTexts(limits, PutCount(limits, o, |name|, MAXIMUM_NAME_PARTS), name)
  }

  function PutSymbol(limits: Limits, o: Output, symbol: SymbolName): (r: Output)
    ensures Grows(limits, o, r)
  {
    if symbol.id == 0 then Refuse(o, InvalidSymbol)
    else PutText(limits, PutWord(limits, o, symbol.id, 8), symbol.spelling)
  }

  function PutOctets(limits: Limits, o: Output, octets: seq<nat>): (r: Output)
    ensures Grows(limits, o, r)
    decreases octets
  {
    if octets == [] then o else PutOctets(limits, PutByte(limits, o, octets[0]), octets[1..])
  }

  function PutCounted(limits: Limits, o: Output, octets: seq<nat>): (r: Output)
    ensures Grows(limits, o, r)
  {
    PutOctets(limits, PutCount(limits, o, |octets|, limits.maximumNumericBytes), octets)
  }

  function PutInteger(limits: Limits, o: Output, v: IntegerLiteral): (r: Output)
    ensures Grows(limits, o, r)
  {
    PutCounted(limits, PutBoolean(limits, o, v.negative), v.magnitude)
  }

  // ---------------------------------------------------------------------------
  // Reading

  /** How far a reader is, and its first error. */
  datatype Cursor = Cursor(offset: nat, failure: Option<Error>)

  datatype Read<+T> = Read(value: T, next: Cursor)

  /** A reader goes forward within its input, and nowhere after the first error. */
  predicate Moves(input: seq<Octet>, c: Cursor, next: Cursor) {
    c.offset <= next.offset && (c.offset <= |input| ==> next.offset <= |input|) && (c.failure.Some? ==> next == c)
  }

  function Reject(c: Cursor, kind: ErrorKind): (r: Cursor)
    ensures r.failure.Some? && r.offset == c.offset && (c.failure.Some? ==> r == c)
  {
    if c.failure.Some? then c else c.(failure := Some(Error(kind, c.offset)))
  }

  function TakeByte(input: seq<Octet>, c: Cursor): (r: Read<Octet>)
    ensures Moves(input, c, r.next)
  {
    if c.failure.Some? then Read(0, c)
    else if c.offset >= |input| then Read(0, Reject(c, TruncatedInput))
    else Read(input[c.offset], c.(offset := c.offset + 1))
  }

  function TakeWord(input: seq<Octet>, c: Cursor, width: nat): (r: Read<nat>)
    ensures Moves(input, c, r.next)
    decreases width
  {
    if width == 0 then Read(0, c)
    else
      var low := TakeByte(input, c);
      var high := TakeWord(input, low.next, width - 1);
      Read(low.value + 256 * high.value, high.next)
  }

  function TakeBoolean(input: seq<Octet>, c: Cursor): (r: Read<bool>)
    ensures Moves(input, c, r.next)
  {
    var b := TakeByte(input, c);
    Read(b.value == 1, if b.value > 1 then Reject(b.next, InvalidBoolean) else b.next)
  }

  function TakeCount(input: seq<Octet>, c: Cursor, maximum: nat): (r: Read<nat>)
    ensures Moves(input, c, r.next)
  {
    var n := TakeWord(input, c, 4);
    var next := if n.value > maximum then Reject(n.next, LimitExceeded) else n.next;
    Read(if next.failure.Some? then 0 else n.value, next)
  }

  function TakeScalars(input: seq<Octet>, c: Cursor, count: nat): (r: Read<Text>)
    ensures Moves(input, c, r.next)
    decreases count
  {
    if count == 0 || c.failure.Some? then Read([], c)
    else
      var scalar := TakeWord(input, c, 4);
      if !IsUnicodeScalar(scalar.value) then Read([], Reject(scalar.next, InvalidScalar))
      else
        var rest := TakeScalars(input, scalar.next, count - 1);
        Read([scalar.value] + rest.value, rest.next)
  }

  function TakeText(limits: Limits, input: seq<Octet>, c: Cursor): (r: Read<Text>)
    ensures Moves(input, c, r.next)
  {
    var n := TakeCount(input, c, limits.maximumTextScalars);
    TakeScalars(input, n.next, n.value)
  }

  function TakeTexts(limits: Limits, input: seq<Octet>, c: Cursor, count: nat): (r: Read<seq<Text>>)
    ensures Moves(input, c, r.next)
    decreases count
  {
    if count == 0 || c.failure.Some? then Read([], c)
    else
      var part := TakeText(limits, input, c);
      var rest := TakeTexts(limits, input, part.next, count - 1);
      Read([part.value] + rest.value, rest.next)
  }

  function TakeName(limits: Limits, input: seq<Octet>, c: Cursor): (r: Read<seq<Text>>)
    ensures Moves(input, c, r.next)
  {
    var n := TakeCount(input, c, MAXIMUM_NAME_PARTS);
    TakeTexts(limits, input, n.next, n.value)
  }

  function TakeSymbol(limits: Limits, input: seq<Octet>, c: Cursor): (r: Read<SymbolName>)
    ensures Moves(input, c, r.next)
  {
    var id := TakeWord(input, c, 8);
    var spelling := TakeText(limits, input, if id.value == 0 then Reject(id.next, InvalidSymbol) else id.next);
    Read(SymbolName(id.value, spelling.value), spelling.next)
  }

  function TakeOctets(input: seq<Octet>, c: Cursor, count: nat): (r: Read<seq<nat>>)
    ensures Moves(input, c, r.next)
    decreases count
  {
    if count == 0 || c.failure.Some? then Read([], c)
    else
      var octet := TakeByte(input, c);
      var rest := TakeOctets(input, octet.next, count - 1);
      Read([octet.value] + rest.value, rest.next)
  }

  function TakeCounted(limits: Limits, input: seq<Octet>, c: Cursor): (r: Read<seq<nat>>)
    ensures Moves(input, c, r.next)
  {
    var n := TakeCount(input, c, limits.maximumNumericBytes);
    TakeOctets(input, n.next, n.value)
  }

  /** An integer that is not canonical is rejected once it has been read. */
  function TakeInteger(limits: Limits, input: seq<Octet>, c: Cursor): (r: Read<IntegerLiteral>)
    ensures Moves(input, c, r.next)
  {
    var sign := TakeBoolean(input, c);
    var octets := TakeCounted(limits, input, sign.next);
    var v := IntegerLiteral(sign.value, octets.value);
    Read(v, if IsCanonical(v) then octets.next else Reject(octets.next, InvalidInteger))
  }

  // ---------------------------------------------------------------------------
  // A writer and a reader that have come equally far

  /** The writer of the first offset bytes of an input, without an error. */
  function Written(input: seq<Octet>, offset: nat): Output
    requires offset <= |input|
  {
    Output(input[..offset], None)
  }

  function At(offset: nat): Cursor {
    Cursor(offset, None)
  }

  /** A write from o that succeeded with bytes the input starts with. */
  predicate Wrote(o: Output, after: Output, input: seq<Octet>) {
    after.failure.None? && o.failure.None? && o.bytes <= after.bytes <= input
  }

  /** A read from an offset within the limits that succeeded. */
  predicate Took(limits: Limits, input: seq<Octet>, offset: nat, next: Cursor) {
    offset <= |input| <= limits.maximumWireBytes && next.failure.None? && offset <= next.offset <= |input|
  }

  // ---------------------------------------------------------------------------
  // Numbers

  lemma {:induction false} WordReadsBack(input: seq<Octet>, offset: nat, value: nat, width: nat)
    requires offset + width <= |input| && input[offset..offset + width] == LittleEndian(value, width)
      && value < Power256(width)
    ensures TakeWord(input, At(offset), width) == Read(value, At(offset + width))
    decreases width
  {
    if width > 0 {
      var field := LittleEndian(value, width);
      assert field[0] == input[offset] && field[1..] == input[offset + 1..offset + width];
      assert value / 256 < Power256(width - 1);
      WordReadsBack(input, offset + 1, value / 256, width - 1);
    }
  }

  lemma {:induction false} WordWritesBack(input: seq<Octet>, offset: nat, width: nat)
    requires TakeWord(input, At(offset), width).next.failure.None?
    ensures offset + width <= |input| || width == 0
    ensures var r := TakeWord(input, At(offset), width);
            r.next == At(offset + width) && r.value < Power256(width)
                && (width > 0 ==> LittleEndian(r.value, width) == input[offset..offset + width])
    decreases width
  {
    if width > 0 {
      var low := TakeByte(input, At(offset));
      assert low.next.failure.None?;
      assert low.next == At(offset + 1);
      WordWritesBack(input, offset + 1, width - 1);
      var high := TakeWord(input, low.next, width - 1);
      var value := low.value + 256 * high.value;
      assert value % 256 == low.value && value / 256 == high.value;
      assert input[offset..offset + width] == [low.value] + input[offset + 1..offset + width];
    }
  }

  lemma {:induction false} WordIsSmall(input: seq<Octet>, c: Cursor, width: nat)
    ensures TakeWord(input, c, width).value < Power256(width)
    decreases width
  {
    if width > 0 {
      WordIsSmall(input, TakeByte(input, c).next, width - 1);
    }
  }

  lemma Powers()
    ensures Power256(2) == 0x1_0000 && Power256(4) == MAXIMUM_U32 + 1 && Power256(8) == MAXIMUM_U64 + 1
  {
    assert Power256(2) == 0x1_0000;
    assert Power256(4) == 0x1_0000_0000;
    assert Power256(6) == 0x1_0000_0000_0000;
  }

  lemma FieldReadsBack(limits: Limits, o: Output, value: nat, width: nat, input: seq<Octet>)
    requires Wrote(o, PutWord(limits, o, value, width), input) && value < Power256(width)
    ensures var after := PutWord(limits, o, value, width);
            TakeWord(input, At(|o.bytes|), width) == Read(value, At(|after.bytes|))
  {
    var after := PutWord(limits, o, value, width);
    assert input[|o.bytes|..|after.bytes|] == after.bytes[|o.bytes|..] == LittleEndian(value, width);
    WordReadsBack(input, |o.bytes|, value, width);
  }

  lemma FieldWritesBack(limits: Limits, input: seq<Octet>, offset: nat, width: nat)
    requires width > 0 && Took(limits, input, offset, TakeWord(input, At(offset), width).next)
    ensures var r := TakeWord(input, At(offset), width);
            PutWord(limits, Written(input, offset), r.value, width) == Written(input, r.next.offset)
                && r.value < Power256(width)
  {
    WordWritesBack(input, offset, width);
    assert input[..offset] + input[offset..offset + width] == input[..offset + width];
  }

  lemma ByteReadsBack(limits: Limits, o: Output, value: nat, input: seq<Octet>)
    requires Wrote(o, PutByte(limits, o, value), input)
    ensures var after := PutByte(limits, o, value);
            TakeByte(input, At(|o.bytes|)) == Read(value % 256, At(|after.bytes|))
  {
    var after := PutByte(limits, o, value);
    assert after.bytes[|o.bytes|] == input[|o.bytes|];
  }

  lemma ByteWritesBack(limits: Limits, input: seq<Octet>, offset: nat)
    requires Took(limits, input, offset, TakeByte(input, At(offset)).next)
    ensures var r := TakeByte(input, At(offset));
            PutByte(limits, Written(input, offset), r.value) == Written(input, r.next.offset)
  {
    assert input[..offset] + [input[offset]] == input[..offset + 1];
  }

  lemma BooleanReadsBack(limits: Limits, o: Output, value: bool, input: seq<Octet>)
    requires Wrote(o, PutBoolean(limits, o, value), input)
    ensures var after := PutBoolean(limits, o, value);
            TakeBoolean(input, At(|o.bytes|)) == Read(value, At(|after.bytes|))
  {
    ByteReadsBack(limits, o, if value then 1 else 0, input);
  }

  lemma BooleanWritesBack(limits: Limits, input: seq<Octet>, offset: nat)
    requires Took(limits, input, offset, TakeBoolean(input, At(offset)).next)
    ensures var r := TakeBoolean(input, At(offset));
            PutBoolean(limits, Written(input, offset), r.value) == Written(input, r.next.offset)
  {
    ByteWritesBack(limits, input, offset);
  }

  lemma CountReadsBack(limits: Limits, o: Output, value: nat, maximum: nat, input: seq<Octet>)
    requires Wrote(o, PutCount(limits, o, value, maximum), input)
    ensures var after := PutCount(limits, o, value, maximum);
            TakeCount(input, At(|o.bytes|), maximum) == Read(value, At(|after.bytes|))
  {
    Powers();
    FieldReadsBack(limits, o, value, 4, input);
  }

  lemma CountWritesBack(limits: Limits, input: seq<Octet>, offset: nat, maximum: nat)
    requires Took(limits, input, offset, TakeCount(input, At(offset), maximum).next)
    ensures var r := TakeCount(input, At(offset), maximum);
            PutCount(limits, Written(input, offset), r.value, maximum) == Written(input, r.next.offset)
  {
    Powers();
    FieldWritesBack(limits, input, offset, 4);
  }

  // ---------------------------------------------------------------------------
  // Texts, names and symbols

  lemma {:induction false} ScalarsReadBack(limits: Limits, o: Output, text: Text, input: seq<Octet>)
    requires Wrote(o, PutScalars(limits, o, text), input)
    ensures var after := PutScalars(limits, o, text);
            TakeScalars(input, At(|o.bytes|), |text|) == Read(text, At(|after.bytes|))
    ensures forall i :: 0 <= i < |text| ==> IsUnicodeScalar(text[i])
    decreases text
  {
    hide TakeWord, LittleEndian, Power256;
    if text != [] {
      var first := PutWord(limits, o, text[0], 4);
      Powers();
      FieldReadsBack(limits, o, text[0], 4, input);
      ScalarsReadBack(limits, first, text[1..], input);
      assert text == [text[0]] + text[1..];
    }
  }

  lemma {:induction false} ScalarsWriteBack(limits: Limits, input: seq<Octet>, offset: nat, count: nat)
    requires Took(limits, input, offset, TakeScalars(input, At(offset), count).next)
    ensures var r := TakeScalars(input, At(offset), count);
            PutScalars(limits, Written(input, offset), r.value) == Written(input, r.next.offset) && |r.value| == count
    decreases count
  {
    hide TakeWord, LittleEndian, Power256;
    if count > 0 {
      var first := TakeWord(input, At(offset), 4);
      assert first.next.failure.None?;
      FieldWritesBack(limits, input, offset, 4);
      assert first.next == At(first.next.offset);
      ScalarsWriteBack(limits, input, first.next.offset, count - 1);
      var r := TakeScalars(input, At(offset), count);
      assert r.value[1..] == TakeScalars(input, first.next, count - 1).value;
    }
  }

  lemma TextReadsBack(limits: Limits, o: Output, text: Text, input: seq<Octet>)
    requires Wrote(o, PutText(limits, o, text), input)
    ensures var after := PutText(limits, o, text);
            TakeText(limits, input, At(|o.bytes|)) == Read(text, At(|after.bytes|))
    ensures forall i :: 0 <= i < |text| ==> IsUnicodeScalar(text[i])
  {
    hide PutCount, TakeCount, PutScalars, TakeScalars;
    CountReadsBack(limits, o, |text|, limits.maximumTextScalars, input);
    ScalarsReadBack(limits, PutCount(limits, o, |text|, limits.maximumTextScalars), text, input);
  }

  lemma TextWritesBack(limits: Limits, input: seq<Octet>, offset: nat)
    requires Took(limits, input, offset, TakeText(limits, input, At(offset)).next)
    ensures var r := TakeText(limits, input, At(offset));
            PutText(limits, Written(input, offset), r.value) == Written(input, r.next.offset)
  {
    hide PutCount, TakeCount, PutScalars, TakeScalars;
    var n := TakeCount(input, At(offset), limits.maximumTextScalars);
    CountWritesBack(limits, input, offset, limits.maximumTextScalars);
    assert n.next == At(n.next.offset);
    ScalarsWriteBack(limits, input, n.next.offset, n.value);
  }

  lemma {:induction false} TextsReadBack(limits: Limits, o: Output, parts: seq<Text>, input: seq<Octet>)
    requires Wrote(o, PutTexts(limits, o, parts), input)
    ensures var after := PutTexts(limits, o, parts);
            TakeTexts(limits, input, At(|o.bytes|), |parts|) == Read(parts, At(|after.bytes|))
    ensures forall i, j :: 0 <= i < |parts| && 0 <= j < |parts[i]| ==> IsUnicodeScalar(parts[i][j])
    decreases parts
  {
    hide PutText, TakeText;
    if parts != [] {
      TextReadsBack(limits, o, parts[0], input);
      TextsReadBack(limits, PutText(limits, o, parts[0]), parts[1..], input);
      assert parts == [parts[0]] + parts[1..];
    }
  }

  lemma {:induction false} TextsWriteBack(limits: Limits, input: seq<Octet>, offset: nat, count: nat)
    requires Took(limits, input, offset, TakeTexts(limits, input, At(offset), count).next)
    ensures var r := TakeTexts(limits, input, At(offset), count);
            PutTexts(limits, Written(input, offset), r.value) == Written(input, r.next.offset) && |r.value| == count
    decreases count
  {
    hide PutText, TakeText;
    if count > 0 {
      var first := TakeText(limits, input, At(offset));
      TextWritesBack(limits, input, offset);
      assert first.next == At(first.next.offset);
      TextsWriteBack(limits, input, first.next.offset, count - 1);
      var r := TakeTexts(limits, input, At(offset), count);
      assert r.value[1..] == TakeTexts(limits, input, first.next, count - 1).value;
    }
  }

  lemma NameReadsBack(limits: Limits, o: Output, name: seq<Text>, input: seq<Octet>)
    requires Wrote(o, PutName(limits, o, name), input)
    ensures var after := PutName(limits, o, name);
            TakeName(limits, input, At(|o.bytes|)) == Read(name, At(|after.bytes|))
    ensures forall i, j :: 0 <= i < |name| && 0 <= j < |name[i]| ==> IsUnicodeScalar(name[i][j])
  {
    hide PutCount, TakeCount, PutTexts, TakeTexts;
    CountReadsBack(limits, o, |name|, MAXIMUM_NAME_PARTS, input);
    TextsReadBack(limits, PutCount(limits, o, |name|, MAXIMUM_NAME_PARTS), name, input);
  }

  lemma NameWritesBack(limits: Limits, input: seq<Octet>, offset: nat)
    requires Took(limits, input, offset, TakeName(limits, input, At(offset)).next)
    ensures var r := TakeName(limits, input, At(offset));
            PutName(limits, Written(input, offset), r.value) == Written(input, r.next.offset)
  {
    hide PutCount, TakeCount, PutTexts, TakeTexts;
    var n := TakeCount(input, At(offset), MAXIMUM_NAME_PARTS);
    CountWritesBack(limits, input, offset, MAXIMUM_NAME_PARTS);
    assert n.next == At(n.next.offset);
    TextsWriteBack(limits, input, n.next.offset, n.value);
  }

  lemma SymbolReadsBack(limits: Limits, o: Output, symbol: SymbolName, input: seq<Octet>)
    requires Wrote(o, PutSymbol(limits, o, symbol), input) && symbol.id <= MAXIMUM_U64
    ensures var after := PutSymbol(limits, o, symbol);
            TakeSymbol(limits, input, At(|o.bytes|)) == Read(symbol, At(|after.bytes|))
    ensures forall i :: 0 <= i < |symbol.spelling| ==> IsUnicodeScalar(symbol.spelling[i])
  {
    hide PutWord, TakeWord, PutText, TakeText, Power256;
    Powers();
    FieldReadsBack(limits, o, symbol.id, 8, input);
    TextReadsBack(limits, PutWord(limits, o, symbol.id, 8), symbol.spelling, input);
  }

  lemma SymbolWritesBack(limits: Limits, input: seq<Octet>, offset: nat)
    requires Took(limits, input, offset, TakeSymbol(limits, input, At(offset)).next)
    ensures var r := TakeSymbol(limits, input, At(offset));
            PutSymbol(limits, Written(input, offset), r.value) == Written(input, r.next.offset)
                && r.value.id <= MAXIMUM_U64
  {
    hide PutWord, TakeWord, PutText, TakeText, Power256;
    var id := TakeWord(input, At(offset), 8);
    Powers();
    FieldWritesBack(limits, input, offset, 8);
    assert id.next == At(id.next.offset);
    TextWritesBack(limits, input, id.next.offset);
  }

  // ---------------------------------------------------------------------------
  // Integers

  predicate AllOctets(octets: seq<nat>) {
    forall i :: 0 <= i < |octets| ==> octets[i] < 256
  }

  lemma {:induction false} OctetsReadBack(limits: Limits, o: Output, octets: seq<nat>, input: seq<Octet>)
    requires Wrote(o, PutOctets(limits, o, octets), input) && AllOctets(octets)
    ensures var after := PutOctets(limits, o, octets);
            TakeOctets(input, At(|o.bytes|), |octets|) == Read(octets, At(|after.bytes|))
    decreases octets
  {
    if octets != [] {
      ByteReadsBack(limits, o, octets[0], input);
      OctetsReadBack(limits, PutByte(limits, o, octets[0]), octets[1..], input);
      assert octets == [octets[0]] + octets[1..];
    }
  }

  lemma {:induction false} OctetsWriteBack(limits: Limits, input: seq<Octet>, offset: nat, count: nat)
    requires Took(limits, input, offset, TakeOctets(input, At(offset), count).next)
    ensures var r := TakeOctets(input, At(offset), count);
            PutOctets(limits, Written(input, offset), r.value) == Written(input, r.next.offset) && |r.value| == count
                && AllOctets(r.value)
    decreases count
  {
    if count > 0 {
      var first := TakeByte(input, At(offset));
      ByteWritesBack(limits, input, offset);
      assert first.next == At(first.next.offset);
      OctetsWriteBack(limits, input, first.next.offset, count - 1);
      var r := TakeOctets(input, At(offset), count);
      assert r.value[1..] == TakeOctets(input, first.next, count - 1).value;
    }
  }

  lemma CountedReadsBack(limits: Limits, o: Output, octets: seq<nat>, input: seq<Octet>)
    requires Wrote(o, PutCounted(limits, o, octets), input) && AllOctets(octets)
    ensures var after := PutCounted(limits, o, octets);
            TakeCounted(limits, input, At(|o.bytes|)) == Read(octets, At(|after.bytes|))
  {
    hide PutCount, TakeCount, PutOctets, TakeOctets;
    CountReadsBack(limits, o, |octets|, limits.maximumNumericBytes, input);
    OctetsReadBack(limits, PutCount(limits, o, |octets|, limits.maximumNumericBytes), octets, input);
  }

  lemma CountedWritesBack(limits: Limits, input: seq<Octet>, offset: nat)
    requires Took(limits, input, offset, TakeCounted(limits, input, At(offset)).next)
    ensures var r := TakeCounted(limits, input, At(offset));
            PutCounted(limits, Written(input, offset), r.value) == Written(input, r.next.offset) && AllOctets(r.value)
  {
    hide PutCount, TakeCount, PutOctets, TakeOctets;
    var n := TakeCount(input, At(offset), limits.maximumNumericBytes);
    CountWritesBack(limits, input, offset, limits.maximumNumericBytes);
    assert n.next == At(n.next.offset);
    OctetsWriteBack(limits, input, n.next.offset, n.value);
  }

  lemma IntegerReadsBack(limits: Limits, o: Output, v: IntegerLiteral, input: seq<Octet>)
    requires Wrote(o, PutInteger(limits, o, v), input) && AllOctets(v.magnitude) && IsCanonical(v)
    ensures var after := PutInteger(limits, o, v);
            TakeInteger(limits, input, At(|o.bytes|)) == Read(v, At(|after.bytes|))
  {
    hide PutBoolean, TakeBoolean, PutCounted, TakeCounted;
    BooleanReadsBack(limits, o, v.negative, input);
    CountedReadsBack(limits, PutBoolean(limits, o, v.negative), v.magnitude, input);
  }

  lemma IntegerWritesBack(limits: Limits, input: seq<Octet>, offset: nat)
    requires Took(limits, input, offset, TakeInteger(limits, input, At(offset)).next)
    ensures var r := TakeInteger(limits, input, At(offset));
            PutInteger(limits, Written(input, offset), r.value) == Written(input, r.next.offset)
                && AllOctets(r.value.magnitude) && IsCanonical(r.value)
  {
    hide PutBoolean, TakeBoolean, PutCounted, TakeCounted;
    var sign := TakeBoolean(input, At(offset));
    BooleanWritesBack(limits, input, offset);
    assert sign.next == At(sign.next.offset);
    CountedWritesBack(limits, input, sign.next.offset);
  }
}
