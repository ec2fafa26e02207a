/**
  The wire form of variants (include/membuffer.cpp): what appending a variant writes, and
  what popping one reads, as functions on byte sequences; and the law that ties the two,
  with and without the text conversions a queue can be told to make while reading.
*/
module VariantCodec {
  import opened Bytes
  import opened Wrappers
  import opened Variants

  const NULL_LENGTH: uint32 := 0xFFFF_FFFF

  // Writing

  function EncodeText(text: Option<Text>): seq<byte>
    requires ShortText(text)
  {
    match text
    case None => U32Bytes(NULL_LENGTH)
    case Some(s) => U32Bytes(2 * |s|) + U16sBytes(s)
  }

  function EncodeTexts(texts: seq<Option<Text>>): seq<byte>
    requires forall t <- texts :: ShortText(t)
  {
    if texts == [] then [] else EncodeText(texts[0]) + EncodeTexts(texts[1..])
  }

  function Encode(v: Variant): seq<byte>
    requires v.Valid()
    decreases v, 0
  {
    match v
    case Empty => U16Bytes(VT_EMPTY)
    case Null => U16Bytes(VT_NULL)
    case Scalar(t, raw) => U16Bytes(t.Code()) + raw
    case Bstr(text) => U16Bytes(VT_BSTR) + EncodeText(text)
    case PlainArray(t, count, cells) => U16Bytes(VT_ARRAY + t.Code()) + U32Bytes(count) + cells
    case BstrArray(texts) => U16Bytes(VT_ARRAY + VT_BSTR) + U32Bytes(|texts|) + EncodeTexts(texts)
    case VariantArray(items) => U16Bytes(VT_ARRAY + VT_VARIANT) + U32Bytes(|items|) + EncodeAll(items)
  }

  function EncodeAll(items: seq<Variant>): seq<byte>
    requires forall v <- items :: v.Valid()
    decreases items, 1
  {
    if items == [] then [] else Encode(items[0]) + EncodeAll(items[1..])
  }

  // Reading

  /** Conversions made while reading: UTF-8 text to BSTR, BSTR to UTF-8 text. */
  datatype Conversions = Conversions(utf8ToW: Option<seq<byte> -> seq<uint16>>, toUtf8: Option<seq<uint16> -> seq<byte>>)

  const NO_CONVERSIONS: Conversions := Conversions(None, None)

  datatype Decoded<T> = Decoded(value: T, rest: seq<byte>)

  type Reading<T> = Result<Decoded<T>, Failure>

  /** What a BSTR means: the units before the first null unit. */
  function UpToNull(s: seq<uint16>): (t: Text) {
    if s == [] || s[0] == 0 then [] else [s[0]] + UpToNull(s[1..])
  }

  function Take(b: seq<byte>, n: nat): Reading<seq<byte>> {
    if |b| < n then Err(BadDeserialization) else Ok(Decoded(b[..n], b[n..]))
  }

  function TakeU16(b: seq<byte>): Reading<uint16> {
    if |b| < 2 then Err(BadDeserialization) else Ok(Decoded(U16Of(b[..2]), b[2..]))
  }

  function TakeU32(b: seq<byte>): Reading<uint32> {
    if |b| < 4 then Err(BadDeserialization) else Ok(Decoded(U32Of(b[..4]), b[4..]))
  }

  /** The units of a text as they lie on the wire, or no text at all. */
  function DecodeUnits(b: seq<byte>): (r: Reading<Option<seq<uint16>>>)
    ensures r.Ok? ==> |r.value.rest| < |b|
  {
    match TakeU32(b)
    case Err(e) => Err(e)
    case Ok(Decoded(len, more)) =>
      if len == NULL_LENGTH then Ok(Decoded(None, more))
      else if len > |more| then Err(BadDeserialization)
      else Ok(Decoded(Some(U16sOf(more[..len])), more[len..]))
  }

  function AsText(units: Option<seq<uint16>>): Option<Text> {
    match units
    case None => None
    case Some(s) => Some(UpToNull(s))
  }

  function DecodeTexts(n: nat, b: seq<byte>): (r: Reading<seq<Option<Text>>>)
    ensures r.Ok? ==> |r.value.rest| <= |b|
    decreases n
  {
    if n == 0 then Ok(Decoded([], b))
    else
      match DecodeUnits(b)
      case Err(e) => Err(e)
      case Ok(Decoded(units, more)) =>
        match DecodeTexts(n - 1, more)
        case Err(e) => Err(e)
        case Ok(Decoded(texts, rest)) => Ok(Decoded([AsText(units)] + texts, rest))
  }

  function DecodePlainArray(t: Plain, count: uint32, b: seq<byte>, cv: Conversions): (r: Reading<Variant>)
    ensures r.Ok? ==> |r.value.rest| <= |b|
  {
    match Take(b, count * t.Width())
    case Err(e) => Err(e)
    case Ok(Decoded(cells, rest)) =>
      if t.I1? && cv.utf8ToW.Some? then Ok(Decoded(Bstr(Some(UpToNull(cv.utf8ToW.value(cells)))), rest))
      else Ok(Decoded(PlainArray(t, count, cells), rest))
  }

  function DecodeBstr(b: seq<byte>, cv: Conversions): (r: Reading<Variant>)
    ensures r.Ok? ==> |r.value.rest| < |b|
  {
    match DecodeUnits(b)
    case Err(e) => Err(e)
    case Ok(Decoded(units, rest)) =>
      if cv.toUtf8.None? then Ok(Decoded(Bstr(AsText(units)), rest))
      else
        match units
        case None => Ok(Decoded(Null, rest))
        case Some(s) =>
          var utf8 := cv.toUtf8.value(s);
          Ok(Decoded(PlainArray(I1, |utf8|, utf8), rest))
  }

  /** Reads one variant off the front.  A CLSID reads as an array of its 16 bytes. */
  function Decode(b: seq<byte>, cv: Conversions): (r: Reading<Variant>)
    ensures r.Ok? ==> |r.value.rest| < |b|
    decreases |b|, 0
  {
    match TakeU16(b)
    case Err(e) => Err(e)
    case Ok(Decoded(code, more)) =>
      if code == VT_EMPTY then Ok(Decoded(Empty, more))
      else if code == VT_NULL then Ok(Decoded(Null, more))
      else if code == VT_BSTR then DecodeBstr(more, cv)
      else if code == VT_CLSID then
        match Take(more, 16)
        case Err(e) => Err(e)
        case Ok(Decoded(guid, rest)) => Ok(Decoded(PlainArray(UI1, 16, guid), rest))
      else if PlainOf(code).Some? then
        match Take(more, PlainOf(code).value.Width())
        case Err(e) => Err(e)
        case Ok(Decoded(raw, rest)) => Ok(Decoded(Scalar(PlainOf(code).value, raw), rest))
      else if code < VT_ARRAY then Err(BadDeserialization)
      else DecodeArray(code - VT_ARRAY, more, cv)
  }

  function DecodeArray(element: uint16, b: seq<byte>, cv: Conversions): (r: Reading<Variant>)
    ensures r.Ok? ==> |r.value.rest| < |b|
    decreases |b|, 2
  {
    match TakeU32(b)
    case Err(e) => Err(e)
    case Ok(Decoded(count, more)) =>
      if element == VT_BSTR then
        match DecodeTexts(count, more)
        case Err(e) => Err(e)
        case Ok(Decoded(texts, rest)) => Ok(Decoded(BstrArray(texts), rest))
      else if element == VT_VARIANT then
        match DecodeAll(count, more, cv)
        case Err(e) => Err(e)
        case Ok(Decoded(items, rest)) => Ok(Decoded(VariantArray(items), rest))
      else if PlainOf(element).Some? then DecodePlainArray(PlainOf(element).value, count, more, cv)
      else Err(BadDeserialization)
  }

  function DecodeAll(n: nat, b: seq<byte>, cv: Conversions): (r: Reading<seq<Variant>>)
    ensures r.Ok? ==> |r.value.rest| <= |b|
    decreases |b|, 1, n
  {
    if n == 0 then Ok(Decoded([], b))
    else
      match Decode(b, cv)
      case Err(e) => Err(e)
      case Ok(Decoded(first, more)) =>
        match DecodeAll(n - 1, more, cv)
        case Err(e) => Err(e)
        case Ok(Decoded(items, rest)) => Ok(Decoded([first] + items, rest))
  }

  // What a reader gets for a variant that was written

  function Converted(v: Variant, cv: Conversions): Variant
    decreases v, 0
  {
    match v
    case Bstr(text) =>
      if cv.toUtf8.None? then v
      else if text.None? then Null
      else
        var utf8 := cv.toUtf8.value(text.value);
        PlainArray(I1, |utf8|, utf8)
    case PlainArray(t, _, cells) =>
      if t.I1? && cv.utf8ToW.Some? then Bstr(Some(UpToNull(cv.utf8ToW.value(cells)))) else v
    case VariantArray(items) => VariantArray(ConvertedAll(items, cv))
    case _ => v
  }

  function ConvertedAll(items: seq<Variant>, cv: Conversions): (r: seq<Variant>)
    ensures |r| == |items|
    decreases items, 1
  {
    if items == [] then [] else [Converted(items[0], cv)] + ConvertedAll(items[1..], cv)
  }

  lemma {:induction false} NothingConverted(v: Variant)
    ensures Converted(v, NO_CONVERSIONS) == v
    decreases v, 0
  {
    match v
    case VariantArray(items) => NothingConvertedInAll(items);
    case _ =>
  }

  lemma {:induction false} NothingConvertedInAll(items: seq<Variant>)
    ensures ConvertedAll(items, NO_CONVERSIONS) == items
    decreases items, 1
  {
    if items != [] {
      NothingConverted(items[0]);
      NothingConvertedInAll(items[1..]);
    }
  }

  // The round trip

  lemma TakeU16Front(x: uint16, b: seq<byte>)
    ensures TakeU16(U16Bytes(x) + b) == Ok(Decoded(x, b))
  {
    U16RoundTrip(x);
    assert (U16Bytes(x) + b)[..2] == U16Bytes(x) && (U16Bytes(x) + b)[2..] == b;
  }

  lemma TakeU32Front(x: uint32, b: seq<byte>)
    ensures TakeU32(U32Bytes(x) + b) == Ok(Decoded(x, b))
  {
    U32RoundTrip(x);
    assert (U32Bytes(x) + b)[..4] == U32Bytes(x) && (U32Bytes(x) + b)[4..] == b;
  }

  lemma TakeFront(a: seq<byte>, b: seq<byte>)
    ensures Take(a + b, |a|) == Ok(Decoded(a, b))
  {
    assert (a + b)[..|a|] == a && (a + b)[|a|..] == b;
  }

  lemma {:induction false} UpToNullOfText(s: Text)
    ensures UpToNull(s) == s
  {
    if s != [] {
      assert s[0] in s && forall c :: c in s[1..] ==> c in s;
      UpToNullOfText(s[1..]);
    }
  }

  lemma UnitsRoundTrip(text: Option<Text>, rest: seq<byte>)
    requires ShortText(text)
    ensures DecodeUnits(EncodeText(text) + rest)
            == Ok(Decoded(if text.None? then None else Some(text.value), rest))
    ensures text.Some? ==> UpToNull(text.value) == text.value
  {
    match text
    case None => TakeU32Front(NULL_LENGTH, rest);
    case Some(s) =>
      var units := U16sBytes(s);
      assert EncodeText(text) + rest == U32Bytes(2 * |s|) + (units + rest);
      TakeU32Front(2 * |s|, units + rest);
      TakeFront(units, rest);
      U16sRoundTrip(s);
      UpToNullOfText(s);
  }

  lemma {:induction false} TextsRoundTrip(texts: seq<Option<Text>>, rest: seq<byte>)
    requires forall t <- texts :: ShortText(t)
    ensures DecodeTexts(|texts|, EncodeTexts(texts) + rest) == Ok(Decoded(texts, rest))
  {
    if texts == [] {
      assert EncodeTexts(texts) + rest == rest;
    } else {
      var more := EncodeTexts(texts[1..]) + rest;
      assert EncodeTexts(texts) + rest == EncodeText(texts[0]) + more;
      UnitsRoundTrip(texts[0], more);
      TextsRoundTrip(texts[1..], rest);
      assert [texts[0]] + texts[1..] == texts;
    }
  }

  lemma ArrayHeader(element: uint16, count: uint32, body: seq<byte>, rest: seq<byte>, cv: Conversions)
    requires element < 0x1000
    ensures var b := U16Bytes(VT_ARRAY + element) + U32Bytes(count) + body + rest;
      && Decode(b, cv) == DecodeArray(element, U32Bytes(count) + (body + rest), cv)
      && TakeU32(U32Bytes(count) + (body + rest)) == Ok(Decoded(count, body + rest))
  {
    var b := U16Bytes(VT_ARRAY + element) + U32Bytes(count) + body + rest;
    assert b == U16Bytes(VT_ARRAY + element) + (U32Bytes(count) + (body + rest));
    TakeU16Front(VT_ARRAY + element, U32Bytes(count) + (body + rest));
    TakeU32Front(count, body + rest);
  }

  lemma ScalarRoundTrip(v: Variant, rest: seq<byte>, cv: Conversions)
    requires v.Valid() && v.Scalar?
    ensures Decode(Encode(v) + rest, cv) == Ok(Decoded(v, rest))
  {
    hide U16Bytes, TakeU16, Take, PlainOf, DecodeArray, DecodeBstr;
    assert Encode(v) + rest == U16Bytes(v.plain.Code()) + (v.raw + rest);
    TakeU16Front(v.plain.Code(), v.raw + rest);
    PlainOfCode(v.plain);
    TakeFront(v.raw, rest);
  }

  lemma PlainArrayRoundTrip(v: Variant, rest: seq<byte>, cv: Conversions)
    requires v.Valid() && v.PlainArray?
    ensures Decode(Encode(v) + rest, cv) == Ok(Decoded(Converted(v, cv), rest))
  {
    hide U16Bytes, U32Bytes, TakeU16, TakeU32, Take, PlainOf, Decode;
    ArrayHeader(v.plain.Code(), v.count, v.cells, rest, cv);
    PlainOfCode(v.plain);
    TakeFront(v.cells, rest);
  }

  /** Reading what was written gives the converted variant and leaves exactly what followed. */
  lemma {:induction false} RoundTrip(v: Variant, rest: seq<byte>, cv: Conversions)
    requires v.Valid()
    ensures Decode(Encode(v) + rest, cv) == Ok(Decoded(Converted(v, cv), rest))
    decreases v, 0
  {
    match v
    case Empty => TakeU16Front(VT_EMPTY, rest);
    case Null => TakeU16Front(VT_NULL, rest);
    case Scalar(_, _) => ScalarRoundTrip(v, rest, cv);
    case Bstr(_) => BstrRoundTrip(v, rest, cv);
    case PlainArray(_, _, _) => PlainArrayRoundTrip(v, rest, cv);
    case BstrArray(_) => BstrArrayRoundTrip(v, rest, cv);
    case VariantArray(items) =>
      hide U16Bytes, U32Bytes, TakeU16, TakeU32, Take, PlainOf, Decode, DecodeAll, EncodeAll, ConvertedAll;
      ArrayHeader(VT_VARIANT, |items|, EncodeAll(items), rest, cv);
      AllRoundTrip(items, rest, cv);
  }

  lemma BstrRoundTrip(v: Variant, rest: seq<byte>, cv: Conversions)
    requires v.Valid() && v.Bstr?
    ensures Decode(Encode(v) + rest, cv) == Ok(Decoded(Converted(v, cv), rest))
  {
    hide U16Bytes, TakeU16, Take, PlainOf, DecodeArray, DecodeUnits, EncodeText, UpToNull;
    assert Encode(v) + rest == U16Bytes(VT_BSTR) + (EncodeText(v.text) + rest);
    TakeU16Front(VT_BSTR, EncodeText(v.text) + rest);
    UnitsRoundTrip(v.text, rest);
  }

  lemma BstrArrayRoundTrip(v: Variant, rest: seq<byte>, cv: Conversions)
    requires v.Valid() && v.BstrArray?
    ensures Decode(Encode(v) + rest, cv) == Ok(Decoded(Converted(v, cv), rest))
  {
    hide U16Bytes, U32Bytes, TakeU16, TakeU32, Take, PlainOf, Decode, DecodeTexts, EncodeTexts;
    ArrayHeader(VT_BSTR, |v.texts|, EncodeTexts(v.texts), rest, cv);
    TextsRoundTrip(v.texts, rest);
  }

  lemma {:induction false} AllRoundTrip(items: seq<Variant>, rest: seq<byte>, cv: Conversions)
    requires forall v <- items :: v.Valid()
    ensures DecodeAll(|items|, EncodeAll(items) + rest, cv) == Ok(Decoded(ConvertedAll(items, cv), rest))
    decreases items, 1
  {
    hide Encode, Decode, Converted;
    if items == [] {
      assert EncodeAll(items) + rest == rest;
    } else {
      var more := EncodeAll(items[1..]) + rest;
      assert EncodeAll(items) + rest == Encode(items[0]) + more;
      RoundTrip(items[0], more, cv);
      AllRoundTrip(items[1..], rest, cv);
    }
  }

  /** Without conversions the reader gets the very same bits, so it compares equal unless there is a NaN. */
  lemma ReadsBackEqual(v: Variant, rest: seq<byte>)
    requires v.Valid()
    ensures Decode(Encode(v) + rest, NO_CONVERSIONS) == Ok(Decoded(v, rest))
    ensures IsEqual(Decode(Encode(v) + rest, NO_CONVERSIONS).value.value, v) <==> !HasNaN(v)
  {
    RoundTrip(v, rest, NO_CONVERSIONS);
    NothingConverted(v);
    EqualToItself(v);
  }

  /** No wire form is the beginning of another one. */
  lemma PrefixFree(v: Variant, w: Variant, r: seq<byte>, s: seq<byte>)
    requires v.Valid() && w.Valid() && Encode(v) + r == Encode(w) + s
    ensures v == w && r == s
  {
    ReadsBackEqual(v, r);
    ReadsBackEqual(w, s);
  }
}
