/**
  What a vector leaves behind in the receiver (include/generalcache.h) when its sending stops
  part-way (include/gencachepeer.h), and what the next vector without a header then delivers.
*/
module RowInterruptions {
  import opened Bytes
  import opened Wrappers
  import opened Variants
  import opened VariantCodec
  import opened RowStream

  /** A message that adds fields to what the receiver has gathered. */
  predicate Gathers(m: Message) {
    m.Transferring? || m.EndBlob?
  }

  predicate AnyGathers(ms: seq<Message>) {
    exists m <- ms :: Gathers(m)
  }

  /**
    Messages as a sender makes them: packed fields are never none, a large field is opened before
    it is closed, and nothing starts a rowset. `begun` tells whether a large field is open.
  */
  predicate Sendable(ms: seq<Message>, begun: bool) {
    ms == [] ||
    match ms[0]
    case RowsetHeader(_, _) => false
    case BeginRows => false
    case Transferring(body) => body != [] && Sendable(ms[1..], begun)
    case EndRows(_) => Sendable(ms[1..], begun)
    case StartBlob(body) => |body| > 4 && Sendable(ms[1..], true)
    case Chunk(_) => Sendable(ms[1..], begun)
    case EndBlob(_) => begun && Sendable(ms[1..], false)
  }

  lemma {:induction false} SendablePrefix(ms: seq<Message>, begun: bool, k: nat)
    requires Sendable(ms, begun) && k <= |ms|
    ensures Sendable(ms[..k], begun)
    decreases |ms|
  {
    if k > 0 {
      assert ms[..k][1..] == ms[1..][..k - 1];
      SendablePrefix(ms[1..], match ms[0] case StartBlob(_) => true case EndBlob(_) => false case _ => begun, k - 1);
    }
  }

  lemma {:induction false} ChunksSendable(buffer: seq<byte>, chunk: nat, others: seq<Message>)
    requires chunk > 0 && Sendable(others, false)
    ensures Sendable(Chunks(buffer, chunk) + others, true)
    decreases |buffer|
  {
    var ms := Chunks(buffer, chunk) + others;
    if |buffer| > chunk {
      ChunksSendable(buffer[chunk..], chunk, others);
      assert ms[1..] == Chunks(buffer[chunk..], chunk) + others;
    } else {
      assert ms[1..] == others;
    }
  }

  lemma BlobSendable(d: DbVariant, chunk: nat, others: seq<Message>)
    requires chunk > 0 && d.value.Valid() && Big(d, chunk) && Sendable(others, false)
    ensures Sendable(BlobMessages(d, chunk) + others, false)
  {
    hide Chunks;
    ChunksSendable(Payload(d), chunk, others);
    var ms := BlobMessages(d, chunk) + others;
    assert ms[1..] == Chunks(Payload(d), chunk) + others;
  }

  /** Every vector is sent that way. */
  lemma {:induction false} RowIsSendable(row: seq<DbVariant>, sb: seq<byte>, chunk: nat)
    requires chunk > 0 && AllValid(row)
    ensures Sendable(RowMessages(row, sb, chunk), false)
    decreases row
  {
    hide EncodeField, BlobMessages, Big;
    var ms := RowMessages(row, sb, chunk);
    if row == [] {
      assert ms[1..] == [];
    } else if Big(row[0], chunk) {
      RowIsSendable(row[1..], [], chunk);
      var others := RowMessages(row[1..], [], chunk);
      var blob := BlobMessages(row[0], chunk) + others;
      BlobSendable(row[0], chunk, others);
      assert ms == Flush(sb) + blob;
      if sb != [] {
        assert ms[1..] == blob;
      } else {
        assert ms == blob;
      }
    } else {
      RowIsSendable(row[1..], sb + EncodeField(row[0]), chunk);
    }
  }

  lemma FieldsAreSome(b: seq<byte>, cv: Conversions)
    requires b != [] && DecodeFields(b, cv).Ok?
    ensures DecodeFields(b, cv).value != []
  {
    hide DecodeField;
  }

  /** Up to the end of the vector, what was gathered only grows, and grows at exactly the messages that gather. */
  lemma {:induction false} GathersExactly(r: Receiver, ms: seq<Message>, begun: bool, cv: Conversions)
    requires Sendable(ms, begun) && (begun ==> r.blob != []) && Run(r, ms, cv).Ok? && forall m <- ms :: !m.EndRows?
    ensures Run(r, ms, cv).value.vData == [] <==> r.vData == [] && !AnyGathers(ms)
    decreases |ms|
  {
    if ms != [] {
      hide DecodeFields, DecodeField, FixLength;
      var m, rest := ms[0], ms[1..];
      assert ms == [m] + rest;
      var next := Step(r, m, cv).value;
      match m {
        case Transferring(body) => FieldsAreSome(body, cv);
        case _ =>
      }
      GathersExactly(next, rest, match m case StartBlob(_) => true case EndBlob(_) => false case _ => begun, cv);
      assert AnyGathers(ms) <==> Gathers(m) || AnyGathers(rest);
    }
  }

  /** An interrupted vector leaves nothing gathered exactly if no message that gathers was sent. */
  lemma LeavesNothingExactly(r: Receiver, row: seq<DbVariant>, k: nat, chunk: nat, cv: Conversions)
    requires chunk > 0 && AllValid(row) && k < |RowMessages(row, [], chunk)| && r.vData == []
    ensures var sent := RowMessages(row, [], chunk)[..k];
      Run(r, sent, cv).Ok? && (Run(r, sent, cv).value.vData == [] <==> !AnyGathers(sent))
  {
    hide Run, RowMessages;
    var ms := RowMessages(row, [], chunk);
    InterruptedVectorIsSilent(r, row, k, chunk, cv);
    RowIsSendable(row, [], chunk);
    SendablePrefix(ms, false, k);
    OnlyLastEnds(row, [], chunk);
    assert ms[..k] <= ms[..|ms| - 1];
    PrefixIn(ms[..k], ms[..|ms| - 1]);
    GathersExactly(r, ms[..k], false, cv);
  }

  lemma PrefixIn<T>(a: seq<T>, b: seq<T>)
    requires a <= b
    ensures forall x <- a :: x in b
  {
  }

  /**
    After an interruption at any point of any vector, the next vector, sent without a new header,
    is delivered alone exactly if the interrupted one had sent no message that gathers.
  */
  lemma NextVectorAloneExactly(r: Receiver, row: seq<DbVariant>, k: nat, next: seq<DbVariant>, chunk: nat, cv: Conversions)
    requires chunk > 0 && AllValid(row) && AllValid(next) && next != []
    requires k < |RowMessages(row, [], chunk)| && r.vData == [] && r.HasRows()
    ensures var sent := RowMessages(row, [], chunk)[..k];
      var run := Run(r, sent + RowMessages(next, [], chunk), cv);
      && run.Ok?
      && (run.value.fired == r.fired + [RowsCalled(r.indexRowset, ReceivedRow(next, chunk, cv))] <==> !AnyGathers(sent))
  {
    hide Run, RowMessages, AnyGathers;
    var sent := RowMessages(row, [], chunk)[..k];
    LeavesNothingExactly(r, row, k, chunk, cv);
    InterruptedVectorIsSilent(r, row, k, chunk, cv);
    var left := Run(r, sent, cv).value;
    RunAppend(r, sent, RowMessages(next, [], chunk), cv);
    LeftoversWithoutHeader(left, next, chunk, cv);
    var alone := ReceivedRow(next, chunk, cv);
    if left.vData != [] {
      var fired := Run(left, RowMessages(next, [], chunk), cv).value.fired;
      assert fired[|fired| - 1] == RowsCalled(r.indexRowset, left.vData + alone);
      assert |left.vData + alone| > |alone|;
    } else {
      assert [] + alone == alone;
    }
  }

  /** The smallest example: one small field and one large one, stopped after the first message. */
  lemma OneFieldIsLeft(r: Receiver, cv: Conversions)
    requires r.vData == []
    ensures var row := [DbVariant(Variant.Empty, false), DbVariant(PlainArray(UI1, 3, [1, 2, 3]), false)];
      && AllValid(row) && |RowMessages(row, [], 1)| > 1
      && Run(r, RowMessages(row, [], 1)[..1], cv) == Ok(r.(vData := [DbVariant(Variant.Empty, false)]))
  {
    hide Chunks, BlobStart;
    var small, large := DbVariant(Variant.Empty, false), DbVariant(PlainArray(UI1, 3, [1, 2, 3]), false);
    var row := [small, large];
    assert large.value.Valid() && Big(large, 1);
    assert row[1..] == [large];
    var b := U16Bytes(VT_EMPTY);
    assert [] + EncodeField(small) == b;
    var ms := RowMessages(row, [], 1);
    assert ms == RowMessages([large], b, 1);
    assert ms[0] == Transferring(b);
    assert ms[..1] == [Transferring(b)] && [Transferring(b)][1..] == [];
    OneEmptyField(cv);
    assert [] + [small] == [small];
  }

  lemma OneEmptyField(cv: Conversions)
    ensures DecodeFields(U16Bytes(VT_EMPTY), cv) == Ok([DbVariant(Variant.Empty, false)])
  {
    var b := U16Bytes(VT_EMPTY);
    RoundTrip(Variant.Empty, [], cv);
    assert Encode(Variant.Empty) + [] == b;
    var e := DbVariant(Variant.Empty, false);
    assert DecodeField(b, cv) == Ok(Decoded(e, []));
    assert DecodeFields([], cv) == Ok([]);
    assert [e] + [] == [e];
  }
}
