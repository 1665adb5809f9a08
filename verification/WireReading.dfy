/** What a reader of the artifact wire accepts: a value is read up to an offset exactly when the
    octets up to there are the layout of that value and the value may be written. */
module WireReading {
  import opened Wrappers
  import opened TypeIdentity
  import opened WireFormat
  import opened WireTypes
  import opened CoreScalars
  import opened WireLiterals
  import opened WireLayout

  /** The octets from offset to end are the layout. */
  predicate Holds(input: seq<Octet>, offset: nat, end: nat, layout: seq<Octet>) {
    offset + |layout| == end <= |input| && input[offset..end] == layout
  }

  /** Inputs longer than the limit are refused before anything is read. */
  predicate Readable(limits: Limits, input: seq<Octet>, offset: nat) {
    offset <= |input| <= limits.maximumWireBytes
  }

  /** A write of an allowed value to the octets before its layout. */
  lemma LayoutWrites(limits: Limits, input: seq<Octet>, offset: nat, end: nat, after: Output, layout: seq<Octet>)
    requires Readable(limits, input, offset) && Holds(input, offset, end, layout)
    requires Appends(limits, Written(input, offset), after, true, layout)
    ensures after == Written(input, end) && Wrote(Written(input, offset), after, input)
  {
    assert input[..offset] + input[offset..end] == input[..end];
  }

  /** A write that leads from the octets before a place to those up to it. */
  lemma WritesLayout(limits: Limits, input: seq<Octet>, offset: nat, end: nat, allowed: bool, layout: seq<Octet>)
    requires Readable(limits, input, offset) && offset <= end <= |input|
    requires Appends(limits, Written(input, offset), Written(input, end), allowed, layout)
    ensures allowed && Holds(input, offset, end, layout)
  {
    assert input[..end] == input[..offset] + layout;
    assert input[..end][offset..] == input[offset..end] == layout;
  }

  lemma BooleanIsRead(limits: Limits, input: seq<Octet>, offset: nat, b: bool, end: nat)
    requires Readable(limits, input, offset)
    ensures TakeBoolean(input, At(offset)) == Read(b, At(end)) <==> Holds(input, offset, end, BooleanLayout(b))
  {
    hide TakeBoolean, PutBoolean, Appends;
    var o := Written(input, offset);
    BooleanAppends(limits, o, b);
    if Holds(input, offset, end, BooleanLayout(b)) {
      LayoutWrites(limits, input, offset, end, PutBoolean(limits, o, b), BooleanLayout(b));
      BooleanReadsBack(limits, o, b, input);
    }
    if TakeBoolean(input, At(offset)) == Read(b, At(end)) {
      BooleanWritesBack(limits, input, offset);
      WritesLayout(limits, input, offset, end, true, BooleanLayout(b));
    }
  }

  lemma TextIsRead(limits: Limits, input: seq<Octet>, offset: nat, text: Text, end: nat)
    requires Readable(limits, input, offset)
    ensures TakeText(limits, input, At(offset)) == Read(text, At(end)) <==>
      Holds(input, offset, end, TextLayout(text)) && TextAllowed(limits, text)
  {
    hide TakeText, PutText, Appends, TextLayout, TextAllowed;
    var o := Written(input, offset);
    TextAppends(limits, o, text);
    if Holds(input, offset, end, TextLayout(text)) && TextAllowed(limits, text) {
      LayoutWrites(limits, input, offset, end, PutText(limits, o, text), TextLayout(text));
      TextReadsBack(limits, o, text, input);
    }
    if TakeText(limits, input, At(offset)) == Read(text, At(end)) {
      TextWritesBack(limits, input, offset);
      WritesLayout(limits, input, offset, end, TextAllowed(limits, text), TextLayout(text));
    }
  }

  lemma NameIsRead(limits: Limits, input: seq<Octet>, offset: nat, name: seq<Text>, end: nat)
    requires Readable(limits, input, offset)
    ensures TakeName(limits, input, At(offset)) == Read(name, At(end)) <==>
      Holds(input, offset, end, NameLayout(name)) && NameAllowed(limits, name)
  {
    hide TakeName, PutName, Appends, NameLayout, NameAllowed;
    var o := Written(input, offset);
    NameAppends(limits, o, name);
    if Holds(input, offset, end, NameLayout(name)) && NameAllowed(limits, name) {
      LayoutWrites(limits, input, offset, end, PutName(limits, o, name), NameLayout(name));
      NameReadsBack(limits, o, name, input);
    }
    if TakeName(limits, input, At(offset)) == Read(name, At(end)) {
      NameWritesBack(limits, input, offset);
      WritesLayout(limits, input, offset, end, NameAllowed(limits, name), NameLayout(name));
    }
  }

  lemma SymbolIsRead(limits: Limits, input: seq<Octet>, offset: nat, s: SymbolName, end: nat)
    requires Readable(limits, input, offset)
    ensures TakeSymbol(limits, input, At(offset)) == Read(s, At(end)) <==>
      Holds(input, offset, end, SymbolLayout(s)) && SymbolAllowed(limits, s) && s.id <= MAXIMUM_U64
  {
    hide TakeSymbol, PutSymbol, Appends, SymbolLayout, SymbolAllowed;
    var o := Written(input, offset);
    SymbolAppends(limits, o, s);
    if Holds(input, offset, end, SymbolLayout(s)) && SymbolAllowed(limits, s) && s.id <= MAXIMUM_U64 {
      LayoutWrites(limits, input, offset, end, PutSymbol(limits, o, s), SymbolLayout(s));
      SymbolReadsBack(limits, o, s, input);
    }
    if TakeSymbol(limits, input, At(offset)) == Read(s, At(end)) {
      SymbolWritesBack(limits, input, offset);
      WritesLayout(limits, input, offset, end, SymbolAllowed(limits, s), SymbolLayout(s));
    }
  }

  lemma IntegerIsRead(limits: Limits, input: seq<Octet>, offset: nat, v: IntegerLiteral, end: nat)
    requires Readable(limits, input, offset)
    ensures TakeInteger(limits, input, At(offset)) == Read(v, At(end)) <==>
      && Holds(input, offset, end, IntegerLayout(v)) && IntegerAllowed(limits, v)
      && IsCanonical(v) && AllOctets(v.magnitude)
  {
    hide TakeInteger, PutInteger, Appends, IntegerLayout, IntegerAllowed, IsCanonical, AllOctets;
    var o := Written(input, offset);
    IntegerAppends(limits, o, v);
    if Holds(input, offset, end, IntegerLayout(v)) && IntegerAllowed(limits, v) && IsCanonical(v)
      && AllOctets(v.magnitude)
    {
      LayoutWrites(limits, input, offset, end, PutInteger(limits, o, v), IntegerLayout(v));
      IntegerReadsBack(limits, o, v, input);
    }
    if TakeInteger(limits, input, At(offset)) == Read(v, At(end)) {
      IntegerWritesBack(limits, input, offset);
      WritesLayout(limits, input, offset, end, IntegerAllowed(limits, v), IntegerLayout(v));
    }
  }

  /** A type is read exactly where its layout stands, if it may be written, has no payload to spare
      and its numbers are in range. */
  lemma TypeIsRead(limits: Limits, input: seq<Octet>, offset: nat, t: Type, depth: nat, end: nat)
    requires Readable(limits, input, offset)
    ensures TakeType(limits, input, At(offset), depth) == Read(t, At(end)) <==>
      && Holds(input, offset, end, TypeLayout(t)) && TypeAllowed(limits, t, depth)
      && OnlyItsKind(t) && Sized(t)
  {
    hide TakeType, PutType, Appends, TypeLayout, TypeAllowed, OnlyItsKind, Sized, Meaning;
    var o := Written(input, offset);
    TypeAppends(limits, o, t, depth);
    if Holds(input, offset, end, TypeLayout(t)) && TypeAllowed(limits, t, depth) && OnlyItsKind(t) && Sized(t) {
      LayoutWrites(limits, input, offset, end, PutType(limits, o, t, depth), TypeLayout(t));
      TypeReadsBack(limits, o, t, depth, input);
      TypeKept(limits, o, t, depth, input);
    }
    if TakeType(limits, input, At(offset), depth) == Read(t, At(end)) {
      TypeWritesBack(limits, input, offset, depth);
      WritesLayout(limits, input, offset, end, TypeAllowed(limits, t, depth), TypeLayout(t));
      PrefixIsWritten(input, offset, end);
      TypeReadsBack(limits, o, t, depth, input);
      TypeKept(limits, o, t, depth, input);
    }
  }

  lemma PrefixIsWritten(input: seq<Octet>, offset: nat, end: nat)
    requires offset <= end <= |input|
    ensures Wrote(Written(input, offset), Written(input, end), input)
  {
    assert input[..offset] <= input[..end] <= input;
  }

  /** A literal is read exactly where its layout stands, if it may be written and is in its one
      stored form. */
  lemma LiteralIsRead(limits: Limits, input: seq<Octet>, offset: nat, l: Literal, t: Type, end: nat)
    requires Readable(limits, input, offset)
    ensures TakeLiteral(limits, input, At(offset), t) == Read(l, At(end)) <==>
      && Holds(input, offset, end, LiteralLayout(l)) && LiteralAllowed(limits, l, t)
      && !l.Signed64? && !l.Signed32? && SizedLiteral(l)
  {
    hide TakeLiteral, PutLiteral, Appends, LiteralLayout, LiteralAllowed, SizedLiteral;
    var o := Written(input, offset);
    LiteralAppends(limits, o, l, t);
    if Holds(input, offset, end, LiteralLayout(l)) && LiteralAllowed(limits, l, t) && !l.Signed64? && !l.Signed32?
      && SizedLiteral(l)
    {
      LayoutWrites(limits, input, offset, end, PutLiteral(limits, o, l, t), LiteralLayout(l));
      LiteralReadsBack(limits, o, l, t, input);
      StoredKeepsNumber(l);
    }
    if TakeLiteral(limits, input, At(offset), t) == Read(l, At(end)) {
      LiteralWritesBack(limits, input, offset, t);
      StoredKeepsNumber(l);
      WritesLayout(limits, input, offset, end, LiteralAllowed(limits, l, t), LiteralLayout(l));
    }
  }
}
