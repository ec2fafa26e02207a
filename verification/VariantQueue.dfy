/**
  The recursive codec of include/membuffer.cpp as it runs on a byte queue, one piece of
  memory at a time, proved to write and read the wire form of VariantCodec.
*/
module VariantQueue {
  import opened Bytes
  import opened Wrappers
  import opened Variants
  import opened VariantCodec
  import opened ByteQueue
  import opened QueueGrowth

  /** Room for `n` more bytes within the sizes for which module QueueGrowth excludes wrap-around. */
  ghost predicate Room(q: UQueue, n: nat)
    reads q
  {
    q.size + n <= GIGA && 0 < q.blockSize <= GIGA
  }

  method Append(q: UQueue, data: seq<byte>)
    requires q.Valid() && Room(q, |data|)
    modifies q, q.buf
    ensures q.Valid() && (q.buf == old(q.buf) || fresh(q.buf))
    ensures q.content == old(q.content) + data
    ensures q.blockSize == old(q.blockSize) && q.utf8ToW == old(q.utf8ToW) && q.toUtf8 == old(q.toUtf8)
  {
    if q.size + |data| > q.maxBuffer {
      GrowthArithmetic(q.maxBuffer, q.blockSize, q.size + |data|);
    }
    q.Push(data);
  }

  /** A BSTR: its length in bytes, or the null length, and then its units. */
  method PushText(q: UQueue, text: Option<Text>)
    requires q.Valid() && ShortText(text) && Room(q, |EncodeText(text)|)
    modifies q, q.buf
    ensures q.Valid() && (q.buf == old(q.buf) || fresh(q.buf))
    ensures q.content == old(q.content) + EncodeText(text)
    ensures q.blockSize == old(q.blockSize) && q.utf8ToW == old(q.utf8ToW) && q.toUtf8 == old(q.toUtf8)
  {
    if text.None? {
      Append(q, U32Bytes(NULL_LENGTH));
      return;
    }
    var bytes := 2 * |text.value|;
    Append(q, U32Bytes(bytes));
    if bytes > 0 {
      Append(q, U16sBytes(text.value));
    }
  }

  method PushTexts(q: UQueue, texts: seq<Option<Text>>)
    requires q.Valid() && (forall t <- texts :: ShortText(t)) && Room(q, |EncodeTexts(texts)|)
    modifies q, q.buf
    ensures q.Valid() && (q.buf == old(q.buf) || fresh(q.buf))
    ensures q.content == old(q.content) + EncodeTexts(texts)
    ensures q.blockSize == old(q.blockSize) && q.utf8ToW == old(q.utf8ToW) && q.toUtf8 == old(q.toUtf8)
  {
    var n := 0;
    while n < |texts|
      invariant n <= |texts| && q.Valid() && (q.buf == old(q.buf) || fresh(q.buf))
      invariant q.content + EncodeTexts(texts[n..]) == old(q.content) + EncodeTexts(texts)
      invariant q.blockSize == old(q.blockSize) && q.utf8ToW == old(q.utf8ToW) && q.toUtf8 == old(q.toUtf8)
    {
      assert texts[n..][1..] == texts[n + 1..];
      Assoc(q.content, EncodeText(texts[n]), EncodeTexts(texts[n + 1..]));
      PushText(q, texts[n]);
      n := n + 1;
    }
  }

  /** The type of an array and the number of its elements. */
  method PushArrayHeader(q: UQueue, element: uint16, count: uint32)
    requires q.Valid() && element < 0x1000 && Room(q, 6)
    modifies q, q.buf
    ensures q.Valid() && (q.buf == old(q.buf) || fresh(q.buf))
    ensures q.content == old(q.content) + (U16Bytes(VT_ARRAY + element) + U32Bytes(count))
    ensures q.blockSize == old(q.blockSize) && q.utf8ToW == old(q.utf8ToW) && q.toUtf8 == old(q.toUtf8)
  {
    Append(q, U16Bytes(VT_ARRAY + element));
    Append(q, U32Bytes(count));
  }

  /** Appends a variant; the rest of the queue stays as it was. */
  method PushVariant(q: UQueue, v: Variant)
    requires q.Valid() && v.Valid() && Room(q, |Encode(v)|)
    modifies q, q.buf
    ensures q.Valid() && (q.buf == old(q.buf) || fresh(q.buf))
    ensures q.content == old(q.content) + Encode(v)
    ensures q.blockSize == old(q.blockSize) && q.utf8ToW == old(q.utf8ToW) && q.toUtf8 == old(q.toUtf8)
    decreases v, 0
  {
    hide U16Bytes, U32Bytes, EncodeText, EncodeTexts, EncodeAll, Plain.Code;
    match v
    case Empty => Append(q, U16Bytes(VT_EMPTY));
    case Null => Append(q, U16Bytes(VT_NULL));
    case Scalar(t, raw) =>
      Assoc(q.content, U16Bytes(t.Code()), raw);
      Append(q, U16Bytes(t.Code()));
      Append(q, raw);
    case Bstr(text) =>
      Assoc(q.content, U16Bytes(VT_BSTR), EncodeText(text));
      Append(q, U16Bytes(VT_BSTR));
      PushText(q, text);
    case PlainArray(t, count, cells) =>
      Assoc(q.content, U16Bytes(VT_ARRAY + t.Code()) + U32Bytes(count), cells);
      PushArrayHeader(q, t.Code(), count);
      if count > 0 {
        Append(q, cells);
      }
    case BstrArray(texts) =>
      Assoc(q.content, U16Bytes(VT_ARRAY + VT_BSTR) + U32Bytes(|texts|), EncodeTexts(texts));
      PushArrayHeader(q, VT_BSTR, |texts|);
      PushTexts(q, texts);
    case VariantArray(items) =>
      Assoc(q.content, U16Bytes(VT_ARRAY + VT_VARIANT) + U32Bytes(|items|), EncodeAll(items));
      PushArrayHeader(q, VT_VARIANT, |items|);
      PushVariants(q, items);
  }

  method PushVariants(q: UQueue, items: seq<Variant>)
    requires q.Valid() && (forall v <- items :: v.Valid()) && Room(q, |EncodeAll(items)|)
    modifies q, q.buf
    ensures q.Valid() && (q.buf == old(q.buf) || fresh(q.buf))
    ensures q.content == old(q.content) + EncodeAll(items)
    ensures q.blockSize == old(q.blockSize) && q.utf8ToW == old(q.utf8ToW) && q.toUtf8 == old(q.toUtf8)
    decreases items, 1
  {
    var n := 0;
    while n < |items|
      invariant n <= |items| && q.Valid() && (q.buf == old(q.buf) || fresh(q.buf))
      invariant q.content + EncodeAll(items[n..]) == old(q.content) + EncodeAll(items)
      invariant q.blockSize == old(q.blockSize) && q.utf8ToW == old(q.utf8ToW) && q.toUtf8 == old(q.toUtf8)
    {
      assert items[n..][1..] == items[n + 1..];
      Assoc(q.content, Encode(items[n]), EncodeAll(items[n + 1..]));
      PushVariant(q, items[n]);
      n := n + 1;
    }
  }

  // Reading

  /** What a loop that has read `done` so far will return, given what reading the rest returns. */
  function After<T>(done: seq<T>, r: Reading<seq<T>>): Reading<seq<T>> {
    match r
    case Err(e) => Err(e)
    case Ok(d) => Ok(Decoded(done + d.value, d.rest))
  }

  lemma AfterNothing<T>(r: Reading<seq<T>>)
    ensures After([], r) == r
  {
    if r.Ok? {
      assert [] + r.value.value == r.value.value;
    }
  }

  lemma AfterOneMore<T>(done: seq<T>, x: T, r: Reading<seq<T>>)
    ensures After(done, After([x], r)) == After(done + [x], r)
  {
    if r.Ok? {
      Assoc(done, [x], r.value.value);
    }
  }

  /** The conversions a queue is set to make, given what the two character-set converters compute. */
  function ConversionsOf(q: UQueue, toW: seq<byte> -> seq<uint16>, toU8: seq<uint16> -> seq<byte>): Conversions
    reads q
  {
    Conversions(if q.utf8ToW then Some(toW) else None, if q.toUtf8 then Some(toU8) else None)
  }

  /** Pops exactly `n` bytes at the front; a size that no 32-bit queue can hold is refused. */
  method PopFront(q: UQueue, n: nat) returns (r: Result<seq<byte>, Failure>)
    requires q.Valid()
    modifies q`size, q`headPos, q`content, q.buf
    ensures q.Valid()
    ensures match Take(old(q.content), n)
            case Err(e) => r == Err(e) && q.content == old(q.content)
            case Ok(d) => r == Ok(d.value) && q.content == d.rest
  {
    if n > MAX_UINT32 {
      return Err(BadDeserialization);
    }
    var popped := q.Pop(n, 0);
    if popped.Err? {
      return Err(BadDeserialization);
    }
    assert Removed(old(q.content), 0, n) == old(q.content)[n..];
    return Ok(popped.value);
  }

  method PopUnits(q: UQueue) returns (r: Result<Option<seq<uint16>>, Failure>)
    requires q.Valid()
    modifies q`size, q`headPos, q`content, q.buf
    ensures q.Valid() && |q.content| <= |old(q.content)|
    ensures match DecodeUnits(old(q.content))
            case Err(e) => r == Err(e)
            case Ok(d) => r == Ok(d.value) && q.content == d.rest
  {
    var head := PopFront(q, 4);
    if head.Err? {
      return Err(head.error);
    }
    var len := U32Of(head.value);
    if len == NULL_LENGTH {
      return Ok(None);
    }
    if len > q.size {
      return Err(BadDeserialization);
    }
    var units := PopFront(q, len);
    return Ok(Some(U16sOf(units.value)));
  }

  lemma TextsStep(texts: seq<Option<Text>>, k: nat, b: seq<byte>)
    ensures After(texts, DecodeTexts(0, b)) == Ok(Decoded(texts, b)) && After([], DecodeTexts(k, b)) == DecodeTexts(k, b)
    ensures k > 0 ==> (
      match DecodeUnits(b)
      case Err(e) => After(texts, DecodeTexts(k, b)) == Err(e)
      case Ok(d) => After(texts, DecodeTexts(k, b)) == After(texts + [AsText(d.value)], DecodeTexts(k - 1, d.rest)))
  {
    hide DecodeUnits;
    assert texts + [] == texts;
    AfterNothing(DecodeTexts(k, b));
    if k > 0 && DecodeUnits(b).Ok? {
      var d := DecodeUnits(b).value;
      AfterOneMore(texts, AsText(d.value), DecodeTexts(k - 1, d.rest));
    }
  }

  method PopTexts(q: UQueue, count: nat) returns (r: Result<seq<Option<Text>>, Failure>)
    requires q.Valid()
    modifies q`size, q`headPos, q`content, q.buf
    ensures q.Valid() && |q.content| <= |old(q.content)|
    ensures match DecodeTexts(count, old(q.content))
            case Err(e) => r == Err(e)
            case Ok(d) => r == Ok(d.value) && q.content == d.rest
  {
    hide DecodeUnits, DecodeTexts, After;
    var texts: seq<Option<Text>> := [];
    var n := 0;
    TextsStep([], count, q.content);
    while n < count
      invariant n <= count && q.Valid() && |q.content| <= |old(q.content)|
      invariant DecodeTexts(count, old(q.content)) == After(texts, DecodeTexts(count - n, q.content))
    {
      TextsStep(texts, count - n, q.content);
      var units := PopUnits(q);
      if units.Err? {
        return Err(units.error);
      }
      texts := texts + [AsText(units.value)];
      n := n + 1;
    }
    TextsStep(texts, 0, q.content);
    return Ok(texts);
  }

  method PopPlainArray(q: UQueue, t: Plain, count: uint32, cv: Conversions) returns (r: Result<Variant, Failure>)
    requires q.Valid()
    modifies q`size, q`headPos, q`content, q.buf
    ensures q.Valid() && |q.content| <= |old(q.content)|
    ensures match DecodePlainArray(t, count, old(q.content), cv)
            case Err(e) => r == Err(e)
            case Ok(d) => r == Ok(d.value) && q.content == d.rest
  {
    var cells := PopFront(q, count * t.Width());
    if cells.Err? {
      return Err(cells.error);
    }
    if t.I1? && cv.utf8ToW.Some? {
      return Ok(Bstr(Some(UpToNull(cv.utf8ToW.value(cells.value)))));
    }
    return Ok(PlainArray(t, count, cells.value));
  }

  method PopBstr(q: UQueue, cv: Conversions) returns (r: Result<Variant, Failure>)
    requires q.Valid()
    modifies q`size, q`headPos, q`content, q.buf
    ensures q.Valid() && |q.content| <= |old(q.content)|
    ensures match DecodeBstr(old(q.content), cv)
            case Err(e) => r == Err(e)
            case Ok(d) => r == Ok(d.value) && q.content == d.rest
  {
    var units := PopUnits(q);
    if units.Err? {
      return Err(units.error);
    }
    if cv.toUtf8.None? {
      return Ok(Bstr(AsText(units.value)));
    }
    if units.value.None? {
      return Ok(Null);
    }
    var utf8 := cv.toUtf8.value(units.value.value);
    return Ok(PlainArray(I1, |utf8|, utf8));
  }

  /**
    Pops one variant at the front and counts the bytes it took.  On success the queue keeps
    exactly what follows the variant; on failure, what had not been read.
  */
  method PopVariant(q: UQueue, cv: Conversions) returns (r: Result<Variant, Failure>, total: nat)
    requires q.Valid()
    modifies q`size, q`headPos, q`content, q.buf
    ensures q.Valid() && |q.content| <= |old(q.content)|
    ensures match Decode(old(q.content), cv)
            case Err(e) => r == Err(e)
            case Ok(d) => r == Ok(d.value) && q.content == d.rest && total == |old(q.content)| - |d.rest|
    decreases |q.content|, 0
  {
    hide DecodeBstr, DecodeArray, Plain.Width;
    var start := q.size;
    var head := PopFront(q, 2);
    if head.Err? {
      return Err(head.error), 0;
    }
    var code := U16Of(head.value);
    if code == VT_EMPTY {
      r := Ok(Empty);
    } else if code == VT_NULL {
      r := Ok(Null);
    } else if code == VT_BSTR {
      r := PopBstr(q, cv);
    } else if code == VT_CLSID {
      var guid := PopFront(q, 16);
      r := if guid.Err? then Err(guid.error) else Ok(PlainArray(UI1, 16, guid.value));
    } else if PlainOf(code).Some? {
      var raw := PopFront(q, PlainOf(code).value.Width());
      r := if raw.Err? then Err(raw.error) else Ok(Scalar(PlainOf(code).value, raw.value));
    } else if code < VT_ARRAY {
      r := Err(BadDeserialization);
    } else {
      r := PopArray(q, code - VT_ARRAY, cv);
    }
    total := start - q.size;
  }

  method PopArray(q: UQueue, element: uint16, cv: Conversions) returns (r: Result<Variant, Failure>)
    requires q.Valid()
    modifies q`size, q`headPos, q`content, q.buf
    ensures q.Valid() && |q.content| <= |old(q.content)|
    ensures match DecodeArray(element, old(q.content), cv)
            case Err(e) => r == Err(e)
            case Ok(d) => r == Ok(d.value) && q.content == d.rest
    decreases |q.content|, 2
  {
    var head := PopFront(q, 4);
    if head.Err? {
      return Err(head.error);
    }
    var count := U32Of(head.value);
    if element == VT_BSTR {
      var texts := PopTexts(q, count);
      return if texts.Err? then Err(texts.error) else Ok(BstrArray(texts.value));
    } else if element == VT_VARIANT {
      var items := PopVariants(q, count, cv);
      return if items.Err? then Err(items.error) else Ok(VariantArray(items.value));
    } else if PlainOf(element).Some? {
      r := PopPlainArray(q, PlainOf(element).value, count, cv);
    } else {
      r := Err(BadDeserialization);
    }
  }

  lemma VariantsStep(items: seq<Variant>, k: nat, b: seq<byte>, cv: Conversions)
    ensures After(items, DecodeAll(0, b, cv)) == Ok(Decoded(items, b))
    ensures After([], DecodeAll(k, b, cv)) == DecodeAll(k, b, cv)
    ensures k > 0 ==> (
      match Decode(b, cv)
      case Err(e) => After(items, DecodeAll(k, b, cv)) == Err(e)
      case Ok(d) => After(items, DecodeAll(k, b, cv)) == After(items + [d.value], DecodeAll(k - 1, d.rest, cv)))
  {
    hide Decode;
    assert items + [] == items;
    AfterNothing(DecodeAll(k, b, cv));
    if k > 0 && Decode(b, cv).Ok? {
      var d := Decode(b, cv).value;
      AfterOneMore(items, d.value, DecodeAll(k - 1, d.rest, cv));
    }
  }

  method PopVariants(q: UQueue, count: nat, cv: Conversions) returns (r: Result<seq<Variant>, Failure>)
    requires q.Valid()
    modifies q`size, q`headPos, q`content, q.buf
    ensures q.Valid() && |q.content| <= |old(q.content)|
    ensures match DecodeAll(count, old(q.content), cv)
            case Err(e) => r == Err(e)
            case Ok(d) => r == Ok(d.value) && q.content == d.rest
    decreases |q.content|, 1
  {
    hide Decode, DecodeAll, After;
    var items: seq<Variant> := [];
    var n := 0;
    VariantsStep([], count, q.content, cv);
    while n < count
      invariant n <= count && q.Valid() && |q.content| <= |old(q.content)|
      invariant DecodeAll(count, old(q.content), cv) == After(items, DecodeAll(count - n, q.content, cv))
    {
      VariantsStep(items, count - n, q.content, cv);
      var item, _ := PopVariant(q, cv);
      if item.Err? {
        return Err(item.error);
      }
      items := items + [item.value];
      n := n + 1;
    }
    VariantsStep(items, 0, q.content, cv);
    return Ok(items);
  }

  /** The reading operator: pops one variant with the conversions the queue is set to make. */
  method Load(q: UQueue, toW: seq<byte> -> seq<uint16>, toU8: seq<uint16> -> seq<byte>)
    returns (r: Result<Variant, Failure>, total: nat)
    requires q.Valid()
    modifies q`size, q`headPos, q`content, q.buf
    ensures q.Valid() && |q.content| <= |old(q.content)|
    ensures match Decode(old(q.content), ConversionsOf(q, toW, toU8))
            case Err(e) => r == Err(e)
            case Ok(d) => r == Ok(d.value) && q.content == d.rest && total == |old(q.content)| - |d.rest|
  {
    r, total := PopVariant(q, ConversionsOf(q, toW, toU8));
  }
}
