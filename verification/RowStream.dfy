/**
  The row stream between a caching server (include/gencachepeer.h) and its client
  (include/generalcache.h): the messages a vector of fields is cut into, the receiving
  state machine as a step function, and the law that the callback gets exactly the vector
  that was sent, whatever the size threshold.
*/
module RowStream {
  import opened Bytes
  import opened Wrappers
  import opened Variants
  import opened VariantCodec

  // Fields

  /** A database variant (include/udatabase.h): a variant and whether it stands for a GUID. */
  datatype DbVariant = DbVariant(value: Variant, guid: bool) {
    /** Only an array of exactly sixteen bytes travels as a GUID. */
    predicate IsGuid() {
      guid && value.PlainArray? && value.plain.UI1? && value.count == 16
    }
  }

  function EncodeField(d: DbVariant): seq<byte>
    requires d.value.Valid()
  {
    if d.IsGuid() then U16Bytes(VT_CLSID) + d.value.cells else Encode(d.value)
  }

  function DecodeField(b: seq<byte>, cv: Conversions): (r: Reading<DbVariant>)
    ensures r.Ok? ==> |r.value.rest| < |b|
  {
    match Decode(b, cv)
    case Err(e) => Err(e)
    case Ok(Decoded(v, rest)) =>
      Ok(Decoded(DbVariant(v, |b| >= 18 && U16Of(b[..2]) == VT_CLSID), rest))
  }

  /** Reads fields until nothing is left. */
  function DecodeFields(b: seq<byte>, cv: Conversions): Result<seq<DbVariant>, Failure>
    decreases |b|
  {
    if b == [] then Ok([])
    else
      match DecodeField(b, cv)
      case Err(e) => Err(e)
      case Ok(Decoded(first, more)) =>
        match DecodeFields(more, cv)
        case Err(e) => Err(e)
        case Ok(others) => Ok([first] + others)
  }

  // Messages

  /** The column descriptions of a header travel as bytes that nothing here looks into. */
  datatype Message =
    | RowsetHeader(columns: seq<byte>, index: uint64)
    | BeginRows
    | Transferring(body: seq<byte>)
    | EndRows(body: seq<byte>)
    | StartBlob(body: seq<byte>)
    | Chunk(body: seq<byte>)
    | EndBlob(body: seq<byte>)

  ghost predicate AllValid(row: seq<DbVariant>) {
    forall d <- row :: d.value.Valid()
  }

  /** Whether a field is too large to be packed with others: texts count units, byte arrays half their bytes. */
  predicate Big(d: DbVariant, chunk: nat) {
    match d.value
    case Bstr(text) => text.Some? && |text.value| > chunk
    case PlainArray(t, count, _) => (t.I1? || t.UI1?) && count > 2 * chunk
    case _ => false
  }

  /** The bytes of a large field after its type and length. */
  function Payload(d: DbVariant): seq<byte>
    requires d.value.Bstr? ==> d.value.text.Some?
    requires d.value.Bstr? || d.value.PlainArray?
  {
    if d.value.Bstr? then U16sBytes(d.value.text.value) else d.value.cells
  }

  function TypeCode(d: DbVariant): uint16
    requires d.value.Bstr? || d.value.PlainArray?
  {
    if d.value.Bstr? then VT_BSTR else VT_ARRAY + d.value.plain.Code()
  }

  function BlobHead(code: uint16, bytes: uint32): seq<byte> {
    U16Bytes(code) + U32Bytes(bytes)
  }

  /** The opening message; its first four bytes only advise the receiver how much memory to reserve. */
  function BlobStart(code: uint16, bytes: uint32): Message {
    StartBlob(U32Bytes((bytes + 10) % 0x1_0000_0000) + BlobHead(code, bytes))
  }

  function Chunks(buffer: seq<byte>, chunk: nat): seq<Message>
    requires chunk > 0
    decreases |buffer|
  {
    if |buffer| > chunk then [Chunk(buffer[..chunk])] + Chunks(buffer[chunk..], chunk) else [EndBlob(buffer)]
  }

  function BlobMessages(d: DbVariant, chunk: nat): seq<Message>
    requires chunk > 0 && d.value.Valid() && Big(d, chunk)
  {
    [BlobStart(TypeCode(d), |Payload(d)|)] + Chunks(Payload(d), chunk)
  }

  function Flush(sb: seq<byte>): seq<Message> {
    if sb == [] then [] else [Transferring(sb)]
  }

  /** What one vector is cut into, when `sb` already waits to be flushed. */
  function RowMessages(row: seq<DbVariant>, sb: seq<byte>, chunk: nat): seq<Message>
    requires chunk > 0 && AllValid(row)
    decreases row
  {
    if row == [] then [EndRows(sb)]
    else if Big(row[0], chunk) then
      Flush(sb) + BlobMessages(row[0], chunk) + RowMessages(row[1..], [], chunk)
    else RowMessages(row[1..], sb + EncodeField(row[0]), chunk)
  }

  // The receiver

  /** The callbacks registered for one rowset: whether there is one for the header and one for the rows. */
  datatype Handler = Handler(onHeader: bool, onRows: bool)

  datatype Event = HeaderCalled(columns: seq<byte>, index: uint64) | RowsCalled(index: uint64, row: seq<DbVariant>)

  datatype Receiver = Receiver(
    vData: seq<DbVariant>,
    blob: seq<byte>,
    indexRowset: uint64,
    handlers: map<uint64, Handler>,
    fired: seq<Event>)
  {
    /** The handler of the current rowset; looking it up creates an empty one if there is none. */
    function Lookup(): Receiver {
      if indexRowset in handlers then this else this.(handlers := handlers[indexRowset := Handler(false, false)])
    }

    function HasRows(): bool {
      indexRowset in handlers && handlers[indexRowset].onRows
    }

    function HasHeader(): bool {
      indexRowset in handlers && handlers[indexRowset].onHeader
    }
  }

  /** A length from here on means that the sender did not know it. */
  const BLOB_LENGTH_NOT_AVAILABLE: uint32 := 0xffff_ffe0

  function FixLength(blob: seq<byte>): seq<byte>
    requires 6 <= |blob| <= MAX_UINT32 + 6
  {
    if U32Of(blob[2..6]) >= BLOB_LENGTH_NOT_AVAILABLE then blob[..2] + U32Bytes(|blob| - 6) + blob[6..] else blob
  }

  function Gather(r: Receiver, body: seq<byte>, cv: Conversions): Result<Receiver, Failure> {
    match DecodeFields(body, cv)
    case Err(e) => Err(e)
    case Ok(row) => Ok(r.(vData := r.vData + row))
  }

  function Deliver(r: Receiver): Receiver {
    var l := r.Lookup();
    l.(vData := [], fired := l.fired + if r.HasRows() then [RowsCalled(r.indexRowset, r.vData)] else [])
  }

  function FinishBlob(r: Receiver, blob: seq<byte>, cv: Conversions): Result<Receiver, Failure> {
    if !(6 <= |blob| <= MAX_UINT32 + 6) then Err(BadDeserialization)
    else
      match DecodeField(FixLength(blob), cv)
      case Err(e) => Err(e)
      case Ok(Decoded(d, rest)) => Ok(r.(blob := rest, vData := r.vData + [d]))
  }

  /** What one message does to the receiver; an error stands for the exception of a failed read. */
  function Step(r: Receiver, m: Message, cv: Conversions): Result<Receiver, Failure> {
    match m
    case RowsetHeader(columns, index) =>
      var l := r.(vData := [], blob := [], indexRowset := index).Lookup();
      Ok(l.(fired := l.fired + if l.HasHeader() then [HeaderCalled(columns, index)] else []))
    case BeginRows => Ok(r.(vData := [], blob := []))
    case Transferring(body) => Gather(r, body, cv)
    case EndRows(body) =>
      if body == [] && r.vData == [] then Ok(r)
      else
        (match Gather(r, body, cv)
         case Err(e) => Err(e)
         case Ok(g) => Ok(Deliver(g)))
    case StartBlob(body) =>
      if |body| < 4 then Err(BadDeserialization) else Ok(r.(blob := body[4..]))
    case Chunk(body) => Ok(r.(blob := r.blob + body))
    case EndBlob(body) =>
      if body == [] && r.blob == [] then Ok(r) else FinishBlob(r, r.blob + body, cv)
  }

  function Run(r: Receiver, ms: seq<Message>, cv: Conversions): Result<Receiver, Failure>
    decreases ms
  {
    if ms == [] then Ok(r)
    else
      match Step(r, ms[0], cv)
      case Err(e) => Err(e)
      case Ok(next) => Run(next, ms[1..], cv)
  }

  lemma {:induction false} RunAppend(r: Receiver, a: seq<Message>, b: seq<Message>, cv: Conversions)
    ensures Run(r, a + b, cv) == match Run(r, a, cv) case Err(e) => Err(e) case Ok(mid) => Run(mid, b, cv)
    decreases a
  {
    hide Step;
    if a == [] {
      assert a + b == b;
    } else {
      assert (a + b)[1..] == a[1..] + b;
      var first := Step(r, a[0], cv);
      if first.Ok? {
        RunAppend(first.value, a[1..], b, cv);
      }
    }
  }

  // What the callback gets for a field

  /** The field as delivered: converted as the receiver is set to, a GUID only if it was packed inline. */
  function Received(d: DbVariant, chunk: nat, cv: Conversions): DbVariant {
    DbVariant(Converted(d.value, cv), d.IsGuid() && !Big(d, chunk))
  }

  function ReceivedRow(row: seq<DbVariant>, chunk: nat, cv: Conversions): (r: seq<DbVariant>)
    ensures |r| == |row|
  {
    if row == [] then [] else [Received(row[0], chunk, cv)] + ReceivedRow(row[1..], chunk, cv)
  }

  // Small fields

  lemma FieldRoundTrip(d: DbVariant, rest: seq<byte>, chunk: nat, cv: Conversions)
    requires d.value.Valid() && !Big(d, chunk)
    ensures DecodeField(EncodeField(d) + rest, cv) == Ok(Decoded(Received(d, chunk, cv), rest))
    ensures EncodeField(d) != []
  {
    if d.IsGuid() {
      var cells := d.value.cells;
      assert EncodeField(d) + rest == U16Bytes(VT_CLSID) + (cells + rest);
      TakeU16Front(VT_CLSID, cells + rest);
      TakeFront(cells, rest);
    } else {
      RoundTrip(d.value, rest, cv);
      EncodeStartsWithCode(d.value, rest);
    }
  }

  /** No variant's wire form starts with the code that stands for a GUID. */
  lemma EncodeStartsWithCode(v: Variant, rest: seq<byte>)
    requires v.Valid()
    ensures |Encode(v)| >= 2 && U16Of((Encode(v) + rest)[..2]) != VT_CLSID
  {
    assert (Encode(v) + rest)[..2] == Encode(v)[..2];
    match v
    case Empty => U16RoundTrip(VT_EMPTY);
    case Null => U16RoundTrip(VT_NULL);
    case Scalar(t, raw) =>
      U16RoundTrip(t.Code());
      assert Encode(v)[..2] == U16Bytes(t.Code());
    case Bstr(text) =>
      U16RoundTrip(VT_BSTR);
      assert Encode(v)[..2] == U16Bytes(VT_BSTR);
    case PlainArray(t, count, cells) =>
      U16RoundTrip(VT_ARRAY + t.Code());
      assert Encode(v)[..2] == U16Bytes(VT_ARRAY + t.Code());
    case BstrArray(texts) =>
      U16RoundTrip(VT_ARRAY + VT_BSTR);
      assert Encode(v)[..2] == U16Bytes(VT_ARRAY + VT_BSTR);
    case VariantArray(items) =>
      U16RoundTrip(VT_ARRAY + VT_VARIANT);
      assert Encode(v)[..2] == U16Bytes(VT_ARRAY + VT_VARIANT);
  }

  /** The bytes of small fields packed one after the other. */
  function EncodeFields(row: seq<DbVariant>): seq<byte>
    requires AllValid(row)
  {
    if row == [] then [] else EncodeField(row[0]) + EncodeFields(row[1..])
  }

  lemma {:induction false} FieldsRoundTrip(row: seq<DbVariant>, chunk: nat, cv: Conversions)
    requires AllValid(row) && forall d <- row :: !Big(d, chunk)
    ensures DecodeFields(EncodeFields(row), cv) == Ok(ReceivedRow(row, chunk, cv))
  {
    if row != [] {
      FieldRoundTrip(row[0], EncodeFields(row[1..]), chunk, cv);
      FieldsRoundTrip(row[1..], chunk, cv);
    }
  }

  lemma {:induction false} PackOneMore(row: seq<DbVariant>, d: DbVariant)
    requires AllValid(row) && d.value.Valid()
    ensures AllValid(row + [d]) && EncodeFields(row + [d]) == EncodeFields(row) + EncodeField(d)
  {
    if row == [] {
      assert row + [d] == [d];
    } else {
      assert (row + [d])[1..] == row[1..] + [d];
      PackOneMore(row[1..], d);
    }
  }

  lemma {:induction false} ReceivedAppend(a: seq<DbVariant>, b: seq<DbVariant>, chunk: nat, cv: Conversions)
    ensures ReceivedRow(a + b, chunk, cv) == ReceivedRow(a, chunk, cv) + ReceivedRow(b, chunk, cv)
  {
    if a == [] {
      assert a + b == b;
    } else {
      assert (a + b)[1..] == a[1..] + b;
      ReceivedAppend(a[1..], b, chunk, cv);
    }
  }

  // Large fields

  /** What is decoded is the blob handed over, whatever was kept before. */
  lemma FinishIgnoresKept(r: Receiver, kept: seq<byte>, blob: seq<byte>, cv: Conversions)
    ensures FinishBlob(r.(blob := kept), blob, cv) == FinishBlob(r, blob, cv)
  {
    hide DecodeField, FixLength;
  }

  /** Chunks of any size put the buffer together again, up to the decoding of the last message. */
  lemma {:induction false} ChunksGather(r: Receiver, buffer: seq<byte>, chunk: nat, cv: Conversions)
    requires chunk > 0 && r.blob != []
    ensures Run(r, Chunks(buffer, chunk), cv) == FinishBlob(r, r.blob + buffer, cv)
    decreases |buffer|
  {
    hide FinishBlob, Gather, Deliver;
    var ms := Chunks(buffer, chunk);
    if |buffer| > chunk {
      var next := r.(blob := r.blob + buffer[..chunk]);
      assert ms[1..] == Chunks(buffer[chunk..], chunk);
      assert Step(r, ms[0], cv) == Ok(next);
      ChunksGather(next, buffer[chunk..], chunk, cv);
      FinishIgnoresKept(r, next.blob, r.blob + buffer, cv);
      assert next.blob + buffer[chunk..] == r.blob + buffer by {
        Assoc(r.blob, buffer[..chunk], buffer[chunk..]);
        assert buffer[..chunk] + buffer[chunk..] == buffer;
      }
    } else {
      assert ms[1..] == [];
      assert Step(r, ms[0], cv) == FinishBlob(r, r.blob + buffer, cv);
    }
  }

  /** A field that can be streamed: a text, or an array of bytes. */
  predicate Streamable(d: DbVariant) {
    match d.value
    case Bstr(text) => text.Some?
    case PlainArray(t, _, _) => t.I1? || t.UI1?
    case _ => false
  }

  /** Such a field is its type, its length and its payload; an unknown length is replaced by the one that arrived. */
  lemma FieldOnTheWire(d: DbVariant, announced: uint32)
    requires d.value.Valid() && Streamable(d)
    requires announced == |Payload(d)| || announced >= BLOB_LENGTH_NOT_AVAILABLE
    ensures |Payload(d)| <= MAX_UINT32
    ensures FixLength(BlobHead(TypeCode(d), announced) + Payload(d)) == Encode(d.value)
  {
    EncodedField(d);
    LengthFixed(TypeCode(d), announced, Payload(d));
  }

  lemma EncodedField(d: DbVariant)
    requires d.value.Valid() && Streamable(d)
    ensures |Payload(d)| <= MAX_UINT32
    ensures Encode(d.value) == U16Bytes(TypeCode(d)) + U32Bytes(|Payload(d)|) + Payload(d)
  {
  }

  lemma LengthFixed(code: uint16, announced: uint32, payload: seq<byte>)
    requires |payload| <= MAX_UINT32 && (announced == |payload| || announced >= BLOB_LENGTH_NOT_AVAILABLE)
    ensures FixLength(BlobHead(code, announced) + payload) == U16Bytes(code) + U32Bytes(|payload|) + payload
  {
    hide U16Bytes, U32Bytes;
    var blob := BlobHead(code, announced) + payload;
    assert blob[..2] == U16Bytes(code) && blob[2..6] == U32Bytes(announced) && blob[6..] == payload;
    U32RoundTrip(announced);
  }

  lemma StartThenChunks(r: Receiver, body: seq<byte>, payload: seq<byte>, chunk: nat, cv: Conversions)
    requires chunk > 0 && |body| > 4
    ensures Run(r, [StartBlob(body)] + Chunks(payload, chunk), cv)
            == FinishBlob(r.(blob := body[4..]), body[4..] + payload, cv)
  {
    assert ([StartBlob(body)] + Chunks(payload, chunk))[1..] == Chunks(payload, chunk);
    ChunksGather(r.(blob := body[4..]), payload, chunk, cv);
  }

  /** A blob that is the wire form of a variant, once its length is right, is decoded to that variant. */
  lemma FinishedBlob(r: Receiver, blob: seq<byte>, v: Variant, cv: Conversions)
    requires v.Valid() && 6 <= |blob| <= MAX_UINT32 + 6 && FixLength(blob) == Encode(v)
    ensures FinishBlob(r, blob, cv) == Ok(r.(blob := [], vData := r.vData + [DbVariant(Converted(v, cv), false)]))
  {
    RoundTrip(v, [], cv);
    EncodeStartsWithCode(v, []);
    assert Encode(v) + [] == Encode(v);
  }

  lemma BlobRoundTrip(r: Receiver, d: DbVariant, chunk: nat, cv: Conversions)
    requires chunk > 0 && d.value.Valid() && Big(d, chunk)
    ensures Run(r, BlobMessages(d, chunk), cv) == Ok(r.(blob := [], vData := r.vData + [Received(d, chunk, cv)]))
  {
    hide Run, Chunks, FinishBlob;
    var head := BlobHead(TypeCode(d), |Payload(d)|);
    var body := BlobStart(TypeCode(d), |Payload(d)|).body;
    assert body[4..] == head;
    StartThenChunks(r, body, Payload(d), chunk, cv);
    FieldOnTheWire(d, |Payload(d)|);
    FinishedBlob(r.(blob := head), head + Payload(d), d.value, cv);
  }

  /** The length of any field may be announced as unknown: the receiver takes it from what arrives. */
  lemma UnknownLengthRoundTrip(r: Receiver, hint: uint32, unknown: uint32, d: DbVariant, chunk: nat, cv: Conversions)
    requires chunk > 0 && unknown >= BLOB_LENGTH_NOT_AVAILABLE && d.value.Valid() && Streamable(d)
    ensures Run(r, [StartBlob(U32Bytes(hint) + BlobHead(TypeCode(d), unknown))] + Chunks(Payload(d), chunk), cv)
         == Ok(r.(blob := [], vData := r.vData + [DbVariant(Converted(d.value, cv), false)]))
  {
    hide Run, Chunks, FinishBlob;
    var head := BlobHead(TypeCode(d), unknown);
    assert (U32Bytes(hint) + head)[4..] == head;
    StartThenChunks(r, U32Bytes(hint) + head, Payload(d), chunk, cv);
    FieldOnTheWire(d, unknown);
    FinishedBlob(r.(blob := head), head + Payload(d), d.value, cv);
  }

  // Whole vectors

  /** What a complete vector does to the receiver, given everything gathered by its end. */
  function Outcome(r: Receiver, all: seq<DbVariant>): Receiver {
    if all == [] then r else Deliver(r.(vData := all))
  }

  lemma EmptyExactlyWhenNothingPacked(row: seq<DbVariant>, chunk: nat, cv: Conversions)
    requires AllValid(row) && forall d <- row :: !Big(d, chunk)
    ensures EncodeFields(row) == [] <==> row == []
  {
    if row != [] {
      FieldRoundTrip(row[0], [], chunk, cv);
    }
  }

  /** Fields packed in one message, sent on before a large field. */
  lemma FlushRoundTrip(r: Receiver, packed: seq<DbVariant>, chunk: nat, cv: Conversions)
    requires AllValid(packed) && forall d <- packed :: !Big(d, chunk)
    ensures Run(r, Flush(EncodeFields(packed)), cv) == Ok(r.(vData := r.vData + ReceivedRow(packed, chunk, cv)))
  {
    hide DecodeFields, EncodeFields;
    EmptyExactlyWhenNothingPacked(packed, chunk, cv);
    FieldsRoundTrip(packed, chunk, cv);
    if packed == [] {
      assert r.vData + ReceivedRow(packed, chunk, cv) == r.vData;
    } else {
      assert [Transferring(EncodeFields(packed))][1..] == [];
    }
  }

  lemma EndGathers(r: Receiver, body: seq<byte>, row: seq<DbVariant>, cv: Conversions)
    requires DecodeFields(body, cv) == Ok(row) && (body == [] <==> row == [])
    ensures Run(r, [EndRows(body)], cv) == Ok(Outcome(r, r.vData + row))
  {
    hide DecodeFields, Deliver, FinishBlob;
    assert [EndRows(body)][1..] == [];
    assert Step(r, EndRows(body), cv) == Ok(Outcome(r, r.vData + row)) by {
      if row == [] {
        assert r.vData + row == r.vData;
      }
    }
  }

  /** Packed fields that close the vector. */
  lemma EndRoundTrip(r: Receiver, packed: seq<DbVariant>, chunk: nat, cv: Conversions)
    requires AllValid(packed) && forall d <- packed :: !Big(d, chunk)
    ensures Run(r, [EndRows(EncodeFields(packed))], cv) == Ok(Outcome(r, r.vData + ReceivedRow(packed, chunk, cv)))
  {
    hide EncodeFields, DecodeFields, Run;
    EmptyExactlyWhenNothingPacked(packed, chunk, cv);
    FieldsRoundTrip(packed, chunk, cv);
    EndGathers(r, EncodeFields(packed), ReceivedRow(packed, chunk, cv), cv);
  }

  /** The fields packed so far and the large field after them, in their messages. */
  lemma FlushAndBlobRoundTrip(r: Receiver, packed: seq<DbVariant>, d: DbVariant, chunk: nat, cv: Conversions)
    requires chunk > 0 && AllValid(packed) && (forall p <- packed :: !Big(p, chunk)) && d.value.Valid() && Big(d, chunk)
    ensures Run(r, Flush(EncodeFields(packed)) + BlobMessages(d, chunk), cv)
            == Ok(r.(blob := [], vData := r.vData + ReceivedRow(packed + [d], chunk, cv)))
  {
    hide Step;
    var flushed := r.(vData := r.vData + ReceivedRow(packed, chunk, cv));
    FlushRoundTrip(r, packed, chunk, cv);
    BlobRoundTrip(flushed, d, chunk, cv);
    RunAppend(r, Flush(EncodeFields(packed)), BlobMessages(d, chunk), cv);
    ReceivedAppend(packed, [d], chunk, cv);
    assert ReceivedRow([d], chunk, cv) == [Received(d, chunk, cv)];
    assert flushed.vData + [Received(d, chunk, cv)] == r.vData + ReceivedRow(packed + [d], chunk, cv);
  }

  lemma OutcomeOfBuffers(r: Receiver, vData: seq<DbVariant>, blob: seq<byte>, all: seq<DbVariant>, left: seq<byte>)
    requires all != []
    ensures Outcome(r.(vData := vData, blob := blob), all).(blob := left) == Outcome(r, all).(blob := left)
  {
  }

  /** The messages run without error and deliver `all` (only what is left in the blob buffer stays open). */
  ghost predicate Delivers(r: Receiver, ms: seq<Message>, all: seq<DbVariant>, cv: Conversions) {
    var run := Run(r, ms, cv);
    run.Ok? && run.value == Outcome(r, all).(blob := run.value.blob)
  }

  lemma DeliversAfterLargeField(
      r: Receiver, packed: seq<DbVariant>, d: DbVariant, others: seq<Message>, tail: seq<DbVariant>, chunk: nat, cv: Conversions)
    requires chunk > 0 && AllValid(packed) && (forall p <- packed :: !Big(p, chunk)) && d.value.Valid() && Big(d, chunk)
    requires var next := r.(blob := [], vData := r.vData + ReceivedRow(packed + [d], chunk, cv));
      Delivers(next, others, next.vData + ReceivedRow(tail, chunk, cv), cv)
    ensures Delivers(r, Flush(EncodeFields(packed)) + BlobMessages(d, chunk) + others,
                     r.vData + ReceivedRow(packed + [d] + tail, chunk, cv), cv)
  {
    hide Step, Run, Outcome, Flush, BlobMessages, ReceivedRow;
    var front := Flush(EncodeFields(packed)) + BlobMessages(d, chunk);
    var next := r.(blob := [], vData := r.vData + ReceivedRow(packed + [d], chunk, cv));
    var all := r.vData + ReceivedRow(packed + [d] + tail, chunk, cv);
    FlushAndBlobRoundTrip(r, packed, d, chunk, cv);
    RunAppend(r, front, others, cv);
    ReceivedAppend(packed + [d], tail, chunk, cv);
    assert next.vData + ReceivedRow(tail, chunk, cv) == all;
    assert next == r.(vData := next.vData, blob := []) && Run(r, front + others, cv) == Run(next, others, cv);
    OutcomeOfBuffers(r, next.vData, [], all, Run(next, others, cv).value.blob);
  }

  lemma NothingPacked()
    ensures EncodeFields([]) == []
  {
  }

  /**
    A vector comes out whole: in order, value for value, whatever the chunk size and however
    its fields were cut, packed (`packed` waits in the buffer) or flushed.
  */
  lemma {:induction false} RowRoundTrip(r: Receiver, packed: seq<DbVariant>, row: seq<DbVariant>, chunk: nat, cv: Conversions)
    requires chunk > 0 && AllValid(row) && AllValid(packed) && forall d <- packed :: !Big(d, chunk)
    ensures Delivers(r, RowMessages(row, EncodeFields(packed), chunk), r.vData + ReceivedRow(packed + row, chunk, cv), cv)
    decreases row
  {
    hide Step, Run, Outcome, Flush, BlobMessages, ReceivedRow, EncodeField, EncodeFields, Big;
    if row == [] {
      assert packed + row == packed;
      EndRoundTrip(r, packed, chunk, cv);
    } else if Big(row[0], chunk) {
      var next := r.(blob := [], vData := r.vData + ReceivedRow(packed + [row[0]], chunk, cv));
      NothingPacked();
      RowRoundTrip(next, [], row[1..], chunk, cv);
      assert [] + row[1..] == row[1..] && packed + [row[0]] + row[1..] == packed + row;
      DeliversAfterLargeField(r, packed, row[0], RowMessages(row[1..], [], chunk), row[1..], chunk, cv);
    } else {
      PackOneMore(packed, row[0]);
      RowRoundTrip(r, packed + [row[0]], row[1..], chunk, cv);
      assert packed + [row[0]] + row[1..] == packed + row;
    }
  }

  // Sessions: a rowset header and the vectors after it

  function VectorMessages(rows: seq<seq<DbVariant>>, chunk: nat): seq<Message>
    requires chunk > 0 && forall row <- rows :: AllValid(row)
  {
    if rows == [] then [] else RowMessages(rows[0], [], chunk) + VectorMessages(rows[1..], chunk)
  }

  /** The calls of the rows callback: one for each vector that is not empty. */
  function RowsCalls(index: uint64, rows: seq<seq<DbVariant>>, chunk: nat, cv: Conversions): seq<Event> {
    if rows == [] then []
    else
      (if rows[0] == [] then [] else [RowsCalled(index, ReceivedRow(rows[0], chunk, cv))])
      + RowsCalls(index, rows[1..], chunk, cv)
  }

  /** The messages run without error, leave nothing gathered and fire exactly these events. */
  ghost predicate Fires(r: Receiver, ms: seq<Message>, events: seq<Event>, cv: Conversions) {
    var run := Run(r, ms, cv);
    run.Ok? && run.value == r.(blob := run.value.blob, fired := r.fired + events)
  }

  lemma FiresAppend(r: Receiver, a: seq<Message>, b: seq<Message>, events: seq<Event>, more: seq<Event>, cv: Conversions)
    requires Fires(r, a, events, cv) && Fires(Run(r, a, cv).value, b, more, cv)
    ensures Fires(r, a + b, events + more, cv)
  {
    hide Step;
    RunAppend(r, a, b, cv);
    assert r.fired + events + more == r.fired + (events + more);
  }

  lemma VectorRoundTrip(r: Receiver, row: seq<DbVariant>, chunk: nat, cv: Conversions)
    requires chunk > 0 && AllValid(row) && r.vData == [] && r.HasRows()
    ensures Fires(r, RowMessages(row, [], chunk), RowsCalls(r.indexRowset, [row], chunk, cv), cv)
  {
    hide Step;
    RowRoundTrip(r, [], row, chunk, cv);
    assert [] + row == row && r.vData + ReceivedRow(row, chunk, cv) == ReceivedRow(row, chunk, cv);
    assert row == [] ==> r.fired + [] == r.fired;
  }

  lemma {:induction false} VectorsRoundTrip(r: Receiver, rows: seq<seq<DbVariant>>, chunk: nat, cv: Conversions)
    requires chunk > 0 && (forall row <- rows :: AllValid(row)) && r.vData == [] && r.HasRows()
    ensures Fires(r, VectorMessages(rows, chunk), RowsCalls(r.indexRowset, rows, chunk, cv), cv)
    decreases rows
  {
    hide Step;
    if rows == [] {
      assert r.fired + RowsCalls(r.indexRowset, rows, chunk, cv) == r.fired;
    } else {
      var first, others := RowMessages(rows[0], [], chunk), VectorMessages(rows[1..], chunk);
      var events, more := RowsCalls(r.indexRowset, [rows[0]], chunk, cv), RowsCalls(r.indexRowset, rows[1..], chunk, cv);
      VectorRoundTrip(r, rows[0], chunk, cv);
      VectorsRoundTrip(Run(r, first, cv).value, rows[1..], chunk, cv);
      FiresAppend(r, first, others, events, more, cv);
      assert [rows[0]][1..] == [];
      assert RowsCalls(r.indexRowset, rows, chunk, cv) == events + more;
    }
  }

  /**
    The stream law: after a header, from any state of the receiver, the header callback is called
    with the columns sent, and the rows callback once for each vector that is not empty, in order, with that vector.
  */
  lemma SessionRoundTrip(r: Receiver, columns: seq<byte>, index: uint64, rows: seq<seq<DbVariant>>, chunk: nat, cv: Conversions)
    requires chunk > 0 && (forall row <- rows :: AllValid(row))
    requires index in r.handlers && r.handlers[index].onRows
    ensures
      var run := Run(r, [RowsetHeader(columns, index)] + VectorMessages(rows, chunk), cv);
      && run.Ok? && run.value.vData == []
      && run.value.fired
         == r.fired + (if r.handlers[index].onHeader then [HeaderCalled(columns, index)] else []) + RowsCalls(index, rows, chunk, cv)
  {
    var next := Step(r, RowsetHeader(columns, index), cv).value;
    var ms := VectorMessages(rows, chunk);
    assert ([RowsetHeader(columns, index)] + ms)[1..] == ms;
    VectorsRoundTrip(next, rows, chunk, cv);
  }

  // Sends that stop part-way

  /** Messages of which none can call the rows callback. */
  ghost predicate Silent(ms: seq<Message>) {
    forall m <- ms :: !m.EndRows? && !m.RowsetHeader?
  }

  lemma {:induction false} ChunksSilent(buffer: seq<byte>, chunk: nat)
    requires chunk > 0
    ensures Silent(Chunks(buffer, chunk))
    decreases |buffer|
  {
    if |buffer| > chunk {
      ChunksSilent(buffer[chunk..], chunk);
    }
  }

  /** Only the last message of a vector ends it. */
  lemma {:induction false} OnlyLastEnds(row: seq<DbVariant>, sb: seq<byte>, chunk: nat)
    requires chunk > 0 && AllValid(row)
    ensures var ms := RowMessages(row, sb, chunk); |ms| > 0 && Silent(ms[..|ms| - 1])
    decreases row
  {
    hide EncodeField, Chunks, Payload, BlobHead;
    if row != [] {
      if Big(row[0], chunk) {
        ChunksSilent(Payload(row[0]), chunk);
        OnlyLastEnds(row[1..], [], chunk);
        var front, others := Flush(sb) + BlobMessages(row[0], chunk), RowMessages(row[1..], [], chunk);
        var ms := RowMessages(row, sb, chunk);
        assert ms == front + others && ms[..|ms| - 1] == front + others[..|others| - 1];
      } else {
        OnlyLastEnds(row[1..], sb + EncodeField(row[0]), chunk);
      }
    }
  }

  lemma {:induction false} SilentRunFiresNothing(r: Receiver, ms: seq<Message>, cv: Conversions)
    requires Silent(ms)
    ensures Run(r, ms, cv).Ok? ==>
      Run(r, ms, cv).value == r.(vData := Run(r, ms, cv).value.vData, blob := Run(r, ms, cv).value.blob)
    decreases ms
  {
    if ms != [] {
      assert ms[0] in ms;
      var first := Step(r, ms[0], cv);
      if first.Ok? {
        SilentRunFiresNothing(first.value, ms[1..], cv);
      }
    }
  }

  /** With no callback registered, no message of any stream calls one. */
  lemma {:induction false} UnregisteredFiresNothing(r: Receiver, ms: seq<Message>, cv: Conversions)
    requires forall i :: i in r.handlers ==> r.handlers[i] == Handler(false, false)
    ensures Run(r, ms, cv).Ok? ==> Run(r, ms, cv).value.fired == r.fired
    decreases ms
  {
    if ms != [] {
      var first := Step(r, ms[0], cv);
      if first.Ok? {
        UnregisteredFiresNothing(first.value, ms[1..], cv);
      }
    }
  }

  /** A vector whose sending stopped before its last message calls nothing, and reads without error. */
  lemma InterruptedVectorIsSilent(r: Receiver, row: seq<DbVariant>, k: nat, chunk: nat, cv: Conversions)
    requires chunk > 0 && AllValid(row) && k < |RowMessages(row, [], chunk)|
    ensures
      var run := Run(r, RowMessages(row, [], chunk)[..k], cv);
      run.Ok? && run.value == r.(vData := run.value.vData, blob := run.value.blob)
  {
    var ms := RowMessages(row, [], chunk);
    OnlyLastEnds(row, [], chunk);
    assert ms == ms[..k] + ms[k..];
    RowRoundTrip(r, [], row, chunk, cv);
    RunAppend(r, ms[..k], ms[k..], cv);
    forall m | m in ms[..k]
      ensures !m.EndRows? && !m.RowsetHeader?
    {
      assert m in ms[..|ms| - 1];
    }
    SilentRunFiresNothing(r, ms[..k], cv);
  }

  /** After an interruption the next header forgets what was gathered, and the stream law holds again. */
  lemma HeaderRecovers(r: Receiver, row: seq<DbVariant>, k: nat, columns: seq<byte>, index: uint64, rows: seq<seq<DbVariant>>,
      chunk: nat, cv: Conversions)
    requires chunk > 0 && AllValid(row) && k < |RowMessages(row, [], chunk)| && forall v <- rows :: AllValid(v)
    requires index in r.handlers && r.handlers[index].onRows
    ensures
      var run := Run(r, RowMessages(row, [], chunk)[..k] + ([RowsetHeader(columns, index)] + VectorMessages(rows, chunk)), cv);
      && run.Ok?
      && run.value.fired
         == r.fired + (if r.handlers[index].onHeader then [HeaderCalled(columns, index)] else []) + RowsCalls(index, rows, chunk, cv)
  {
    var part := RowMessages(row, [], chunk)[..k];
    InterruptedVectorIsSilent(r, row, k, chunk, cv);
    RunAppend(r, part, [RowsetHeader(columns, index)] + VectorMessages(rows, chunk), cv);
    SessionRoundTrip(Run(r, part, cv).value, columns, index, rows, chunk, cv);
  }

  /** Without a new header, what was gathered before is delivered with the next vector. */
  lemma LeftoversWithoutHeader(r: Receiver, row: seq<DbVariant>, chunk: nat, cv: Conversions)
    requires chunk > 0 && AllValid(row) && r.HasRows() && (row != [] || r.vData != [])
    ensures
      var run := Run(r, RowMessages(row, [], chunk), cv);
      run.Ok? && run.value.fired == r.fired + [RowsCalled(r.indexRowset, r.vData + ReceivedRow(row, chunk, cv))]
  {
    RowRoundTrip(r, [], row, chunk, cv);
    assert [] + row == row;
  }
}
