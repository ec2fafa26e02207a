/**
  How the server cuts a vector of fields into messages (include/gencachepeer.h): which fields are
  streamed, how long the pieces of a streamed field are, and that all the others share messages.
*/
module RowLayout {
  import opened Bytes
  import opened Wrappers
  import opened Variants
  import opened VariantCodec
  import opened WireForm
  import opened RowStream

  /** A field is streamed exactly if it can be and has more than twice as many bytes as the threshold says. */
  lemma BigExactly(d: DbVariant, chunk: nat)
    requires d.value.Valid()
    ensures Big(d, chunk) <==> Streamable(d) && |Payload(d)| > 2 * chunk
  {
  }

  /** The opening message: how much memory to reserve, the type, and the number of bytes to come. */
  lemma OpeningMessage(code: uint16, bytes: uint32)
    ensures var body := BlobStart(code, bytes).body;
      && |body| == 10 && LittleEndian(body[..4]) == (bytes + 10) % 0x1_0000_0000
      && LittleEndian(body[4..6]) == code && LittleEndian(body[6..]) == bytes
  {
    hide U32Bytes, LittleEndian;
    var reserve := (bytes + 10) % 0x1_0000_0000;
    var body := BlobStart(code, bytes).body;
    BytesAreLittleEndian(reserve);
    BytesAreLittleEndian(code);
    BytesAreLittleEndian(bytes);
    assert body[..4] == U32Bytes(reserve) && body[4..6] == U16Bytes(code) && body[6..] == U32Bytes(bytes);
  }

  function Joined(ms: seq<Message>): seq<byte>
    requires forall m <- ms :: m.Chunk? || m.EndBlob?
  {
    if ms == [] then [] else ms[0].body + Joined(ms[1..])
  }

  /** Every piece but the last is as long as the threshold, the last one not longer, and joined they are the field. */
  lemma {:induction false} PiecesExactly(buffer: seq<byte>, chunk: nat)
    requires chunk > 0
    ensures var ms := Chunks(buffer, chunk);
      && ms != [] && (forall i :: 0 <= i < |ms| - 1 ==> ms[i].Chunk? && |ms[i].body| == chunk)
      && ms[|ms| - 1].EndBlob? && |ms[|ms| - 1].body| <= chunk && (buffer != [] ==> ms[|ms| - 1].body != [])
      && (forall m <- ms :: m.Chunk? || m.EndBlob?) && Joined(ms) == buffer
    decreases |buffer|
  {
    var ms := Chunks(buffer, chunk);
    if |buffer| > chunk {
      PiecesExactly(buffer[chunk..], chunk);
      assert ms[1..] == Chunks(buffer[chunk..], chunk);
      assert buffer == buffer[..chunk] + buffer[chunk..];
    } else {
      assert ms[1..] == [];
    }
  }

  /** The position of the first field that is streamed, or the number of fields. */
  function FirstBig(row: seq<DbVariant>, chunk: nat): (i: nat)
    ensures i <= |row| && (i < |row| ==> Big(row[i], chunk)) && forall k :: 0 <= k < i ==> !Big(row[k], chunk)
  {
    if row == [] || Big(row[0], chunk) then 0 else 1 + FirstBig(row[1..], chunk)
  }

  /**
    The fields up to the first streamed one share one message, which is sent before it if there is
    any; the fields behind the last streamed one share the message that ends the vector.
  */
  lemma {:induction false} RowCut(row: seq<DbVariant>, sb: seq<byte>, chunk: nat)
    requires chunk > 0 && AllValid(row)
    ensures var i := FirstBig(row, chunk);
      AllValid(row[..i]) && RowMessages(row, sb, chunk)
      == (var packed := sb + EncodeFields(row[..i]);
          if i == |row| then [EndRows(packed)]
          else (if packed == [] then [] else [Transferring(packed)])
               + [BlobStart(TypeCode(row[i]), |Payload(row[i])|)] + Chunks(Payload(row[i]), chunk)
               + RowMessages(row[i + 1..], [], chunk))
    decreases row
  {
    hide BlobStart, Chunks, EncodeField;
    var i := FirstBig(row, chunk);
    if row == [] {
      assert sb + EncodeFields(row[..0]) == sb;
    } else if i == 0 {
      assert sb + EncodeFields(row[..0]) == sb;
      Assoc(Flush(sb), [BlobStart(TypeCode(row[0]), |Payload(row[0])|)], Chunks(Payload(row[0]), chunk));
    } else {
      RowCut(row[1..], sb + EncodeField(row[0]), chunk);
      assert row[..i][0] == row[0] && row[..i][1..] == row[1..][..i - 1];
      Assoc(sb, EncodeField(row[0]), EncodeFields(row[..i][1..]));
      assert i < |row| ==> row[1..][i - 1] == row[i] && row[1..][i..] == row[i + 1..];
    }
  }

  // What the receiver refuses and forgets

  /** A length that stands for an unknown one is replaced by what arrived; any other is left alone. */
  lemma LengthReplacedExactly(blob: seq<byte>)
    requires 6 <= |blob| <= MAX_UINT32 + 6
    ensures FixLength(blob)
         == blob[..2] + (if LittleEndian(blob[2..6]) >= 0xFFFF_FFE0 then U32Bytes(|blob| - 6) else blob[2..6]) + blob[6..]
  {
    WordsAreLittleEndian(blob[2..6]);
    assert blob == blob[..2] + blob[2..6] + blob[6..];
  }

  /** A field cut short anywhere is an error. */
  lemma CutFieldFails(d: DbVariant, n: nat, cv: Conversions)
    requires d.value.Valid() && n < |EncodeField(d)|
    ensures DecodeField(EncodeField(d)[..n], cv) == Err(BadDeserialization)
  {
    hide Decode, EncodeField;
    var b := EncodeField(d);
    FieldRoundTrip(d, [], Unreached(d), cv);
    ReadingExtends(b[..n], b[n..], cv);
    assert b[..n] + b[n..] == b + [];
    assert forall x: seq<byte> :: |x + b[n..]| > 0;
  }

  /** A threshold the field does not exceed. */
  function Unreached(d: DbVariant): (chunk: nat)
    ensures !Big(d, chunk)
  {
    match d.value
    case Bstr(Some(text)) => |text|
    case PlainArray(_, count, _) => count
    case _ => 0
  }

  /** So is a message of fields of which the last one is cut short. */
  lemma {:induction false} CutMessageFails(row: seq<DbVariant>, d: DbVariant, n: nat, cv: Conversions)
    requires AllValid(row) && d.value.Valid() && 0 < n < |EncodeField(d)|
    ensures DecodeFields(EncodeFields(row) + EncodeField(d)[..n], cv) == Err(BadDeserialization)
  {
    hide EncodeField, DecodeField, Big;
    var cut := EncodeField(d)[..n];
    if row == [] {
      CutFieldFails(d, n, cv);
      assert EncodeFields(row) + cut == cut;
    } else {
      var rest := EncodeFields(row[1..]) + cut;
      FieldRoundTrip(row[0], rest, Unreached(row[0]), cv);
      Assoc(EncodeField(row[0]), EncodeFields(row[1..]), cut);
      CutMessageFails(row[1..], d, n, cv);
    }
  }

  /** Messages that are too short, or hold a field cut short, are refused. */
  lemma MalformedFails(r: Receiver, row: seq<DbVariant>, d: DbVariant, n: nat, body: seq<byte>, cv: Conversions)
    requires AllValid(row) && d.value.Valid() && 0 < n < |EncodeField(d)|
    ensures var cut := EncodeFields(row) + EncodeField(d)[..n];
      Step(r, Transferring(cut), cv) == Step(r, EndRows(cut), cv) == Err(BadDeserialization)
    ensures |body| < 4 ==> Step(r, StartBlob(body), cv) == Err(BadDeserialization)
    ensures 0 < |r.blob + body| < 6 ==> Step(r, EndBlob(body), cv) == Err(BadDeserialization)
  {
    hide DecodeFields, EncodeField, EncodeFields;
    CutMessageFails(row, d, n, cv);
    assert |EncodeFields(row) + EncodeField(d)[..n]| > 0;
  }

  /** BeginRows forgets what an interrupted vector has left: the vectors behind it arrive alone. */
  lemma BeginRowsRecovers(r: Receiver, row: seq<DbVariant>, k: nat, rows: seq<seq<DbVariant>>, chunk: nat, cv: Conversions)
    requires chunk > 0 && AllValid(row) && k < |RowMessages(row, [], chunk)| && (forall v <- rows :: AllValid(v)) && r.HasRows()
    ensures var run := Run(r, RowMessages(row, [], chunk)[..k] + ([BeginRows] + VectorMessages(rows, chunk)), cv);
      run.Ok? && run.value.fired == r.fired + RowsCalls(r.indexRowset, rows, chunk, cv)
  {
    hide RowMessages, VectorMessages, RowsCalls;
    var part := RowMessages(row, [], chunk)[..k];
    InterruptedVectorIsSilent(r, row, k, chunk, cv);
    RunAppend(r, part, [BeginRows] + VectorMessages(rows, chunk), cv);
    var next := Run(r, part, cv).value;
    assert ([BeginRows] + VectorMessages(rows, chunk))[1..] == VectorMessages(rows, chunk);
    VectorsRoundTrip(next.(vData := [], blob := []), rows, chunk, cv);
  }
}
