/**
  The wire form of variants, byte by byte (include/membuffer.cpp), and what becomes of input that
  is no wire form: a truncated one is an error, and so is a type code nobody writes.
*/
module WireForm {
  import opened Bytes
  import opened Wrappers
  import opened Variants
  import opened VariantCodec

  // What is written

  /** A four-byte number, the least significant byte first. */
  ghost predicate IsNumber(b: seq<byte>, n: nat) {
    |b| == 4 && LittleEndian(b) == n
  }

  /** The type code, then raw memory; a text with its length in bytes; an array with its number of elements. */
  lemma Written(v: Variant)
    requires v.Valid()
    ensures var b := Encode(v);
      && (v.Empty? ==> b == [0, 0])
      && (v.Null? ==> b == [1, 0])
      && (v.Scalar? ==> b == [v.plain.Code(), 0] + v.raw)
      && (v.Bstr? && v.text.None? ==> b == [8, 0, 0xFF, 0xFF, 0xFF, 0xFF])
      && (v.Bstr? && v.text.Some? ==>
            b[..2] == [8, 0] && IsNumber(b[2..6], 2 * |v.text.value|) && b[6..] == U16sBytes(v.text.value))
      && (v.PlainArray? ==> b[..2] == [v.plain.Code(), 0x20] && IsNumber(b[2..6], v.count) && b[6..] == v.cells)
      && (v.BstrArray? ==> b[..2] == [8, 0x20] && IsNumber(b[2..6], |v.texts|) && b[6..] == EncodeTexts(v.texts))
      && (v.VariantArray? ==> b[..2] == [12, 0x20] && IsNumber(b[2..6], |v.items|) && b[6..] == EncodeAll(v.items))
  {
    hide U32Bytes, LittleEndian, EncodeTexts, EncodeAll, U16sBytes, IsNumber;
    match v
    case Bstr(None) =>
      AllOnes();
    case Bstr(Some(s)) =>
      Headed(8, 2 * |s|, U16sBytes(s));
    case PlainArray(t, count, cells) =>
      Headed(0x2000 + t.Code(), count, cells);
    case BstrArray(texts) =>
      Headed(0x2008, |texts|, EncodeTexts(texts));
    case VariantArray(items) =>
      Headed(0x200C, |items|, EncodeAll(items));
    case _ =>
  }

  lemma Headed(code: uint16, n: uint32, body: seq<byte>)
    ensures var b := U16Bytes(code) + U32Bytes(n) + body;
      && b == U16Bytes(code) + (U32Bytes(n) + body)
      && b[..2] == [code % 0x100, code / 0x100] && IsNumber(b[2..6], n) && b[6..] == body
  {
    hide U32Bytes, LittleEndian;
    BytesAreLittleEndian(n);
    var b := U16Bytes(code) + U32Bytes(n) + body;
    assert b[2..6] == U32Bytes(n);
  }

  lemma AllOnes()
    ensures U32Bytes(NULL_LENGTH) == [0xFF, 0xFF, 0xFF, 0xFF]
  {
  }

  // What follows does not matter

  /** What is read does not depend on what follows, which is left over; an error is one of the wire form. */
  ghost predicate Extends<T>(short: Reading<T>, long: Reading<T>, more: seq<byte>) {
    match short
    case Ok(Decoded(value, rest)) => long == Ok(Decoded(value, rest + more))
    case Err(e) => e == BadDeserialization
  }

  lemma SplitFront(b: seq<byte>, more: seq<byte>, n: nat)
    requires n <= |b|
    ensures (b + more)[..n] == b[..n] && (b + more)[n..] == b[n..] + more
  {
  }

  lemma UnitsExtend(b: seq<byte>, more: seq<byte>)
    ensures Extends(DecodeUnits(b), DecodeUnits(b + more), more)
  {
    hide U32Of, U16sOf;
    if |b| >= 4 {
      SplitFront(b, more, 4);
      var len := U32Of(b[..4]);
      if len <= |b[4..]| {
        SplitFront(b[4..], more, len);
      }
    }
  }

  lemma {:induction false} TextsExtend(n: nat, b: seq<byte>, more: seq<byte>)
    ensures Extends(DecodeTexts(n, b), DecodeTexts(n, b + more), more)
    decreases n
  {
    hide DecodeUnits;
    if n > 0 {
      UnitsExtend(b, more);
      if DecodeUnits(b).Ok? {
        TextsExtend(n - 1, DecodeUnits(b).value.rest, more);
      }
    }
  }

  lemma TakesExtend(b: seq<byte>, more: seq<byte>, n: nat)
    ensures Extends(Take(b, n), Take(b + more, n), more)
    ensures Extends(TakeU16(b), TakeU16(b + more), more) && Extends(TakeU32(b), TakeU32(b + more), more)
  {
    if n <= |b| {
      SplitFront(b, more, n);
    }
    if 2 <= |b| {
      SplitFront(b, more, 2);
    }
    if 4 <= |b| {
      SplitFront(b, more, 4);
    }
  }

  lemma PlainArraysExtend(t: Plain, count: uint32, b: seq<byte>, more: seq<byte>, cv: Conversions)
    ensures Extends(DecodePlainArray(t, count, b, cv), DecodePlainArray(t, count, b + more, cv), more)
  {
    hide Take;
    TakesExtend(b, more, count * t.Width());
  }

  lemma {:induction false} ReadingExtends(b: seq<byte>, more: seq<byte>, cv: Conversions)
    ensures Extends(Decode(b, cv), Decode(b + more, cv), more)
    decreases |b|, 0
  {
    hide Take, TakeU16, TakeU32, DecodeUnits, DecodeArray, PlainOf;
    TakesExtend(b, more, 0);
    if TakeU16(b).Ok? {
      var Decoded(code, tail) := TakeU16(b).value;
      assert |tail| < |b| by { ShorterBehindCode(b); }
      UnitsExtend(tail, more);
      TakesExtend(tail, more, 16);
      if PlainOf(code).Some? {
        TakesExtend(tail, more, PlainOf(code).value.Width());
      }
      if code >= VT_ARRAY {
        ArraysExtend(code - VT_ARRAY, tail, more, cv);
      }
    }
  }

  lemma ShorterBehindCode(b: seq<byte>)
    requires TakeU16(b).Ok?
    ensures |TakeU16(b).value.rest| < |b|
  {
  }

  lemma {:induction false} ArraysExtend(element: uint16, b: seq<byte>, more: seq<byte>, cv: Conversions)
    ensures Extends(DecodeArray(element, b, cv), DecodeArray(element, b + more, cv), more)
    decreases |b|, 2
  {
    hide Take, DecodeUnits, DecodeTexts, DecodeAll, DecodePlainArray, PlainOf, U32Of;
    TakesExtend(b, more, 0);
    if TakeU32(b).Ok? {
      var Decoded(count, tail) := TakeU32(b).value;
      TextsExtend(count, tail, more);
      AllExtend(count, tail, more, cv);
      if PlainOf(element).Some? {
        PlainArraysExtend(PlainOf(element).value, count, tail, more, cv);
      }
    }
  }

  lemma {:induction false} AllExtend(n: nat, b: seq<byte>, more: seq<byte>, cv: Conversions)
    ensures Extends(DecodeAll(n, b, cv), DecodeAll(n, b + more, cv), more)
    decreases |b|, 1, n
  {
    hide Decode;
    if n > 0 {
      ReadingExtends(b, more, cv);
      if Decode(b, cv).Ok? {
        AllExtend(n - 1, Decode(b, cv).value.rest, more, cv);
      }
    }
  }

  // What is refused

  /** A variant whose wire form is cut short anywhere is an error, whatever the conversions. */
  lemma TruncatedFails(v: Variant, n: nat, cv: Conversions)
    requires v.Valid() && n < |Encode(v)|
    ensures Decode(Encode(v)[..n], cv) == Err(BadDeserialization)
  {
    hide Decode, Encode, Converted;
    var b := Encode(v);
    var r := Decode(b[..n], cv);
    ReadingExtends(b[..n], b[n..], cv);
    RoundTrip(v, [], cv);
    assert b[..n] + b[n..] == b + [];
    assert forall x: seq<byte> :: |x + b[n..]| > 0;
  }

  /** The codes of the scalars. */
  predicate IsPlainCode(code: int) {
    2 <= code <= 7 || code == 11 || code == 14 || 16 <= code <= 23
  }

  /** A type code nobody writes is an error, whatever follows it. */
  lemma UnknownCodeFails(code: uint16, more: seq<byte>, cv: Conversions)
    requires code !in {0, 1, 8, 72} && !IsPlainCode(code)
    requires code - 0x2000 !in {8, 12} && !IsPlainCode(code - 0x2000)
    ensures Decode(U16Bytes(code) + more, cv) == Err(BadDeserialization)
  {
    hide U16Bytes, TakeU16;
    TakeU16Front(code, more);
    ReadingExtends(U16Bytes(code) + more, [], cv);
  }

  // Conversions

  /** A text ends before its first null unit. */
  lemma {:induction false} EndsAtNull(a: seq<uint16>, b: seq<uint16>)
    requires 0 !in a
    ensures UpToNull(a + [0] + b) == a && UpToNull(a) == a
  {
    if a != [] {
      assert (a + [0] + b)[1..] == a[1..] + [0] + b;
      assert forall c <- a[1..] :: c in a;
      EndsAtNull(a[1..], b);
      assert a == [a[0]] + a[1..];
    }
  }

  /**
    Told to, a reader makes text of an array of signed bytes, and only of such an array, or an array
    of signed bytes of a text; a missing text becomes a null.
  */
  lemma ConvertedExactly(t: Plain, cells: seq<byte>, count: nat, text: Text, cv: Conversions)
    requires |cells| == count * t.Width() <= MAX_UINT32 && 2 * |text| <= MAX_UINT32
    ensures var r := Decode(Encode(PlainArray(t, count, cells)), cv);
      r == Ok(Decoded(if t.Code() == 16 && cv.utf8ToW.Some? then Bstr(Some(UpToNull(cv.utf8ToW.value(cells))))
                      else PlainArray(t, count, cells), []))
    ensures var r := Decode(Encode(Bstr(Some(text))), cv);
      && (cv.toUtf8.None? ==> r == Ok(Decoded(Bstr(Some(text)), [])))
      && (cv.toUtf8.Some? ==>
            var utf8 := cv.toUtf8.value(text); r == Ok(Decoded(PlainArray(I1, |utf8|, utf8), [])))
    ensures Decode(Encode(Bstr(None)), cv) == Ok(Decoded(if cv.toUtf8.Some? then Null else Bstr(None), []))
  {
    hide Decode, Encode, UpToNull;
    RoundTrip(PlainArray(t, count, cells), [], cv);
    RoundTrip(Bstr(Some(text)), [], cv);
    RoundTrip(Bstr(None), [], cv);
    assert forall b: seq<byte> :: b + [] == b;
  }
}
