/** The UTF-8 encoder and the validity check of artifact names (Talac/Driver/ProjectArtifacts.cpp),
    after section 3 of RFC 3629: shortest forms only, no surrogates, nothing above 0x10ffff. */
module Utf8Names {
  import opened Wrappers

  type Byte = b: int | 0 <= b < 256

  predicate IsUnicodeScalar(v: int) {
    0 <= v <= 0x10ffff && !(0xd800 <= v <= 0xdfff)
  }

  type Scalar = v: int | 0 <= v <= 0x10ffff && !(0xd800 <= v <= 0xdfff)

  predicate IsContinuation(b: Byte) {
    0x80 <= b <= 0xbf
  }

  /** A continuation byte carries six bits. */
  function Continuation(v: int): (b: Byte)
    ensures IsContinuation(b) && b % 64 == v % 64
  {
    0x80 + v % 64
  }

  function First(mark: int, v: int): Byte
    requires 0 <= mark + v < 256
  {
    mark + v
  }

  /** The bytes AppendUtf8 adds for a scalar. */
  function Encoded(v: Scalar): (r: seq<Byte>)
    ensures 1 <= |r| <= 4
  {
    if v <= 0x7f then [First(0, v)]
    else if v <= 0x7ff then [First(0xc0, v / 64), Continuation(v)]
    else if v <= 0xffff then [First(0xe0, v / 64 / 64), Continuation(v / 64), Continuation(v)]
    else [First(0xf0, v / 64 / 64 / 64), Continuation(v / 64 / 64), Continuation(v / 64), Continuation(v)]
  }

  function Encode(text: seq<Scalar>): seq<Byte> {
    if text == [] then [] else Encoded(text[0]) + Encode(text[1..])
  }

  /** How many bytes a first byte announces; zero when it starts nothing. */
  function Width(first: Byte): nat {
    if first <= 0x7f then 1
    else if 0xc2 <= first <= 0xdf then 2
    else if 0xe0 <= first <= 0xef then 3
    else if 0xf0 <= first <= 0xf4 then 4
    else 0
  }

  /** The scalar bits of a first byte of the given width. */
  function Leading(first: Byte, width: nat): int {
    if width == 2 then first % 32 else if width == 3 then first % 16 else if width == 4 then first % 8 else first
  }

  /** The scalar bits of the first n bytes of a sequence. */
  function Bits(bytes: seq<Byte>, width: nat, n: nat): int
    requires 1 <= n <= |bytes|
  {
    if n == 1 then Leading(bytes[0], width) else Bits(bytes, width, n - 1) * 64 + bytes[n - 1] % 64
  }

  predicate Accepted(bytes: seq<Byte>) {
    && bytes != []
    && var width := Width(bytes[0]);
       && 1 <= width <= |bytes|
       && (forall i :: 1 <= i < width ==> IsContinuation(bytes[i]))
       && (width > 1 ==>
             && !(width == 2 && Bits(bytes, width, width) < 0x80)
             && !(width == 3 && Bits(bytes, width, width) < 0x800)
             && !(width == 4 && Bits(bytes, width, width) < 0x10000)
             && IsUnicodeScalar(Bits(bytes, width, width)))
  }

  predicate Valid(bytes: seq<Byte>) {
    bytes == [] || (Accepted(bytes) && Valid(bytes[Width(bytes[0])..]))
  }

  method AppendUtf8(destination: seq<Byte>, value: int) returns (r: Option<seq<Byte>>)
    requires 0 <= value
    ensures r == if IsUnicodeScalar(value) then Some(destination + Encoded(value)) else None
  {
    if !IsUnicodeScalar(value) {
      return None;
    }
    r := Some(destination + Encoded(value));
  }

  /** Encode a text, or refuse it when some value is not a scalar. */
  method Utf8(text: seq<int>) returns (r: Option<seq<Byte>>)
    requires forall i :: 0 <= i < |text| ==> 0 <= text[i]
    ensures r.None? <==> exists i :: 0 <= i < |text| && !IsUnicodeScalar(text[i])
    ensures r.Some? ==> (forall i :: 0 <= i < |text| ==> IsUnicodeScalar(text[i])) && r.value == Encode(text)
  {
    var result: seq<Byte> := [];
    for n := 0 to |text|
      invariant forall i :: 0 <= i < n ==> IsUnicodeScalar(text[i])
      invariant result == Encode(text[..n])
    {
      var appended := AppendUtf8(result, text[n]);
      if appended == None {
        return None;
      }
      assert text[..n + 1] == text[..n] + [text[n]];
      EncodeSplit(text[..n], [text[n]]);
      assert Encode([text[n]]) == Encoded(text[n]);
      result := appended.value;
    }
    assert text[..|text|] == text;
    r := Some(result);
  }

  lemma {:induction false} EncodeSplit(a: seq<Scalar>, b: seq<Scalar>)
    ensures Encode(a + b) == Encode(a) + Encode(b)
  {
    if a == [] {
      assert a + b == b;
    } else {
      assert (a + b)[1..] == a[1..] + b;
      EncodeSplit(a[1..], b);
    }
  }

  /** The check of the source: one pass over the bytes. */
  method IsValidUtf8(bytes: seq<Byte>) returns (r: bool)
    ensures r <==> Valid(bytes)
  {
    var index := 0;
    while index < |bytes|
      invariant 0 <= index <= |bytes|
      invariant Valid(bytes) <==> Valid(bytes[index..])
    {
      ghost var rest := bytes[index..];
      var width := Width(bytes[index]);
      if width == 1 {
        assert rest[1..] == bytes[index + 1..];
        index := index + 1;
        continue;
      }
      if width == 0 || width > |bytes| - index {
        return false;
      }
      var scalar := Leading(bytes[index], width);
      for k := 1 to width
        invariant forall i :: 1 <= i < k ==> IsContinuation(rest[i])
        invariant scalar == Bits(rest, width, k)
      {
        if !IsContinuation(bytes[index + k]) {
          assert !IsContinuation(rest[k]);
          return false;
        }
        scalar := scalar * 64 + bytes[index + k] % 64;
      }
      if (width == 2 && scalar < 0x80) || (width == 3 && scalar < 0x800) || (width == 4 && scalar < 0x10000)
          || !IsUnicodeScalar(scalar) {
        return false;
      }
      assert rest[width..] == bytes[index + width..];
      index := index + width;
    }
    r := true;
  }

  // ---------------------------------------------------------------------------
  // Valid strings are exactly the encodings

  lemma SixBits(x: int, c: int)
    requires 0 <= c < 64
    ensures (x * 64 + c) / 64 == x && (x * 64 + c) % 64 == c
  {
  }

  /** The bits gathered from up to four bytes. */
  lemma GatheredBits(b: seq<Byte>, w: nat)
    requires 1 <= w <= |b|
    ensures Bits(b, w, 1) == Leading(b[0], w)
    ensures w >= 2 ==> Bits(b, w, 2) == Leading(b[0], w) * 64 + b[1] % 64
    ensures w >= 3 ==> Bits(b, w, 3) == (Leading(b[0], w) * 64 + b[1] % 64) * 64 + b[2] % 64
    ensures w >= 4 ==> Bits(b, w, 4) == ((Leading(b[0], w) * 64 + b[1] % 64) * 64 + b[2] % 64) * 64 + b[3] % 64
  {
  }

  lemma EncodedIsAccepted(v: Scalar, tail: seq<Byte>)
    ensures Accepted(Encoded(v) + tail) && Width((Encoded(v) + tail)[0]) == |Encoded(v)|
  {
    var b := Encoded(v) + tail;
    GatheredBits(b, |Encoded(v)|);
    hide Bits;
    if v <= 0x7f {
    } else if v <= 0x7ff {
      TwoBytes(v);
    } else if v <= 0xffff {
      ThreeBytes(v);
    } else {
      FourBytes(v);
    }
  }

  lemma TwoBytes(v: Scalar)
    requires 0x7f < v <= 0x7ff
    ensures 2 <= v / 64 <= 31 && (0xc0 + v / 64) % 32 == v / 64 && v == v / 64 * 64 + v % 64
  {
  }

  lemma ThreeBytes(v: Scalar)
    requires 0x7ff < v <= 0xffff
    ensures 0 <= v / 64 / 64 <= 15 && (0xe0 + v / 64 / 64) % 16 == v / 64 / 64
    ensures v == (v / 64 / 64 * 64 + v / 64 % 64) * 64 + v % 64
  {
  }

  lemma FourBytes(v: Scalar)
    requires 0xffff < v
    ensures 0 <= v / 64 / 64 / 64 <= 4 && (0xf0 + v / 64 / 64 / 64) % 8 == v / 64 / 64 / 64
    ensures v == ((v / 64 / 64 / 64 * 64 + v / 64 / 64 % 64) * 64 + v / 64 % 64) * 64 + v % 64
  {
  }

  /** Two, three or four bytes with the marks of section 3 of RFC 3629 that carry a value. */
  predicate CarriesTwo(b: seq<Byte>, v: int) {
    |b| == 2 && 0xc0 <= b[0] < 0xe0 && IsContinuation(b[1]) && v == (b[0] - 0xc0) * 0x40 + (b[1] as int - 0x80)
  }

  predicate CarriesThree(b: seq<Byte>, v: int) {
    && |b| == 3 && 0xe0 <= b[0] < 0xf0 && IsContinuation(b[1]) && IsContinuation(b[2])
    && v == (b[0] - 0xe0) * 0x1000 + (b[1] as int - 0x80) * 0x40 + (b[2] as int - 0x80)
  }

  predicate CarriesFour(b: seq<Byte>, v: int) {
    && |b| == 4 && 0xf0 <= b[0] < 0xf8 && IsContinuation(b[1]) && IsContinuation(b[2]) && IsContinuation(b[3])
    && v == (b[0] - 0xf0) * 0x4_0000 + (b[1] as int - 0x80) * 0x1000
         + (b[2] as int - 0x80) * 0x40 + (b[3] as int - 0x80)
  }

  /** The table of section 3 of RFC 3629: how many bytes a scalar takes, and where its bits go. */
  lemma EncodingTable(v: Scalar)
    ensures v < 0x80 <==> Encoded(v) == [v]
    ensures 0x80 <= v < 0x800 <==> CarriesTwo(Encoded(v), v)
    ensures 0x800 <= v < 0x1_0000 <==> CarriesThree(Encoded(v), v)
    ensures 0x1_0000 <= v <==> CarriesFour(Encoded(v), v)
  {
    if 0x80 <= v < 0x800 {
      TwoBytes(v);
    } else if 0x800 <= v < 0x1_0000 {
      ThreeBytes(v);
    } else if 0x1_0000 <= v {
      FourBytes(v);
    }
  }

  lemma ContinuationIs(b: Byte)
    requires IsContinuation(b)
    ensures b == Continuation(b % 64) && 0 <= b % 64 < 64
  {
  }

  lemma SameContinuation(x: int, c: int)
    requires x % 64 == c % 64
    ensures Continuation(x) == Continuation(c)
  {
  }

  /** What is accepted at the start of a string is the encoding of one scalar. */
  lemma AcceptedIsEncoded(bytes: seq<Byte>) returns (v: Scalar)
    requires Accepted(bytes)
    ensures Encoded(v) == bytes[..Width(bytes[0])]
  {
    var w := Width(bytes[0]);
    GatheredBits(bytes, w);
    v := if w == 1 then bytes[0] else Bits(bytes, w, w);
    var lead := Leading(bytes[0], w);
    hide Bits;
    if w == 2 {
      AcceptedTwo(bytes, v, lead);
    } else if w == 3 {
      AcceptedThree(bytes, v, lead);
    } else if w == 4 {
      AcceptedFour(bytes, v, lead);
    }
  }

  lemma AcceptedTwo(bytes: seq<Byte>, v: Scalar, lead: int)
    requires |bytes| >= 2 && 0xc2 <= bytes[0] <= 0xdf && lead == bytes[0] % 32
    requires IsContinuation(bytes[1]) && v == lead * 64 + bytes[1] % 64 && v >= 0x80
    ensures Encoded(v) == bytes[..2]
  {
    ContinuationIs(bytes[1]);
    SixBits(lead, bytes[1] % 64);
    SameContinuation(v, bytes[1] % 64);
    hide Continuation, IsContinuation;
    assert lead == bytes[0] - 0xc0;
  }

  lemma AcceptedThree(bytes: seq<Byte>, v: Scalar, lead: int)
    requires |bytes| >= 3 && 0xe0 <= bytes[0] <= 0xef && lead == bytes[0] % 16
    requires IsContinuation(bytes[1]) && IsContinuation(bytes[2])
    requires v == (lead * 64 + bytes[1] % 64) * 64 + bytes[2] % 64 && v >= 0x800
    ensures Encoded(v) == bytes[..3]
  {
    var x := lead * 64 + bytes[1] % 64;
    ContinuationIs(bytes[1]);
    ContinuationIs(bytes[2]);
    SixBits(lead, bytes[1] % 64);
    SixBits(x, bytes[2] % 64);
    SameContinuation(v, bytes[2] % 64);
    SameContinuation(x, bytes[1] % 64);
    hide Continuation, IsContinuation;
    assert lead == bytes[0] - 0xe0;
  }

  lemma AcceptedFour(bytes: seq<Byte>, v: Scalar, lead: int)
    requires |bytes| >= 4 && 0xf0 <= bytes[0] <= 0xf4 && lead == bytes[0] % 8
    requires IsContinuation(bytes[1]) && IsContinuation(bytes[2]) && IsContinuation(bytes[3])
    requires v == ((lead * 64 + bytes[1] % 64) * 64 + bytes[2] % 64) * 64 + bytes[3] % 64 && v >= 0x10000
    ensures Encoded(v) == bytes[..4]
  {
    var x := lead * 64 + bytes[1] % 64;
    var y := x * 64 + bytes[2] % 64;
    ContinuationIs(bytes[1]);
    ContinuationIs(bytes[2]);
    ContinuationIs(bytes[3]);
    SixBits(lead, bytes[1] % 64);
    SixBits(x, bytes[2] % 64);
    SixBits(y, bytes[3] % 64);
    SameContinuation(v, bytes[3] % 64);
    SameContinuation(y, bytes[2] % 64);
    SameContinuation(x, bytes[1] % 64);
    hide Continuation, IsContinuation;
    assert lead == bytes[0] - 0xf0;
  }

  lemma {:induction false} EncodingIsValid(text: seq<Scalar>)
    ensures Valid(Encode(text))
  {
    if text != [] {
      var tail := Encode(text[1..]);
      EncodedIsAccepted(text[0], tail);
      EncodingIsValid(text[1..]);
      assert (Encoded(text[0]) + tail)[|Encoded(text[0])|..] == tail;
    }
  }

  lemma {:induction false} ValidIsEncoding(bytes: seq<Byte>) returns (text: seq<Scalar>)
    requires Valid(bytes)
    ensures Encode(text) == bytes
    decreases |bytes|
  {
    if bytes == [] {
      text := [];
    } else {
      var w := Width(bytes[0]);
      var v := AcceptedIsEncoded(bytes);
      var rest := ValidIsEncoding(bytes[w..]);
      text := [v] + rest;
      assert text[1..] == rest;
      assert bytes == bytes[..w] + bytes[w..];
    }
  }

  /** A byte string is accepted exactly when it encodes some sequence of Unicode scalars. */
  lemma ValidIffEncoding(bytes: seq<Byte>)
    ensures Valid(bytes) <==> exists text :: Encode(text) == bytes
  {
    if Valid(bytes) {
      var text := ValidIsEncoding(bytes);
    }
    if text :| Encode(text) == bytes {
      EncodingIsValid(text);
    }
  }

  /** A scalar can be read back from its encoding. */
  lemma EncodedBits(v: Scalar)
    ensures Bits(Encoded(v), |Encoded(v)|, |Encoded(v)|) == v
  {
    GatheredBits(Encoded(v), |Encoded(v)|);
    hide Bits;
    if v <= 0x7f {
    } else if v <= 0x7ff {
      TwoBytes(v);
    } else if v <= 0xffff {
      ThreeBytes(v);
    } else {
      FourBytes(v);
    }
  }

  lemma SameStart(u: Scalar, v: Scalar, a: seq<Byte>, b: seq<Byte>)
    requires Encoded(u) + a == Encoded(v) + b
    ensures u == v && a == b
  {
    var whole := Encoded(u) + a;
    EncodedIsAccepted(u, a);
    EncodedIsAccepted(v, b);
    EncodedBits(u);
    EncodedBits(v);
    hide Encoded, Bits, Accepted;
    var n := |Encoded(u)|;
    assert whole[..n] == Encoded(u) && whole[..n] == Encoded(v);
    assert whole[n..] == a && whole[n..] == b;
  }

  /** No two texts share a byte spelling. */
  lemma {:induction false} EncodeInjective(s: seq<Scalar>, t: seq<Scalar>)
    requires Encode(s) == Encode(t)
    ensures s == t
  {
    if s != [] && t != [] {
      SameStart(s[0], t[0], Encode(s[1..]), Encode(t[1..]));
      EncodeInjective(s[1..], t[1..]);
      assert s == [s[0]] + s[1..] && t == [t[0]] + t[1..];
    }
  }
}
