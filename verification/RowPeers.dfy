/**
  The two ends of the row stream as objects: the server peer that cuts vectors into
  messages and may be refused a send at any moment (include/gencachepeer.h), and the client
  handler that gathers them (include/generalcache.h).
*/
module RowPeers {
  import opened Bytes
  import opened Wrappers
  import opened VariantCodec
  import opened RowStream

  /** No database system is known yet. */
  const MS_UNKNOWN: int := -1

  /** The longest prefix of messages that the core accepts when the first of them is attempt number n. */
  function Accepted(ms: seq<Message>, accepts: nat -> bool, n: nat): (r: seq<Message>)
    ensures r <= ms
  {
    if ms == [] || !accepts(n) then [] else [ms[0]] + Accepted(ms[1..], accepts, n + 1)
  }

  lemma {:induction false} AcceptedAppend(a: seq<Message>, b: seq<Message>, accepts: nat -> bool, n: nat)
    ensures Accepted(a + b, accepts, n)
            == if Accepted(a, accepts, n) == a then a + Accepted(b, accepts, n + |a|) else Accepted(a, accepts, n)
  {
    if a == [] {
      assert a + b == b;
    } else {
      assert (a + b)[1..] == a[1..] + b;
      AcceptedAppend(a[1..], b, accepts, n + 1);
    }
  }

  /** Sending one chunk, and then the others. */
  lemma NextChunk(buffer: seq<byte>, chunk: nat, accepts: nat -> bool, n: nat)
    requires 0 < chunk < |buffer|
    ensures var next, others := Chunk(buffer[..chunk]), Chunks(buffer[chunk..], chunk);
      && Chunks(buffer, chunk) == [next] + others
      && (Accepted([next], accepts, n) == [next] <==> accepts(n))
      && (accepts(n) ==> Accepted(Chunks(buffer, chunk), accepts, n) == [next] + Accepted(others, accepts, n + 1))
      && (!accepts(n) ==> Accepted([next], accepts, n) == Accepted(Chunks(buffer, chunk), accepts, n) == [])
  {
    var next, others := Chunk(buffer[..chunk]), Chunks(buffer[chunk..], chunk);
    assert ([next] + others)[1..] == others;
    AcceptedAppend([next], others, accepts, n);
    assert [next][1..] == [];
  }

  lemma LastChunk(buffer: seq<byte>, chunk: nat)
    requires 0 < chunk && |buffer| <= chunk
    ensures Chunks(buffer, chunk) == [EndBlob(buffer)]
  {
  }

  function BodyBytes(ms: seq<Message>): nat {
    if ms == [] then 0
    else
      (match ms[0]
       case RowsetHeader(columns, _) => |columns| + 8
       case BeginRows => 0
       case m => |m.body|) + BodyBytes(ms[1..])
  }

  class CacheBasePeer {
    /** The size threshold of fields, and of bytes batched before a flush. */
    const chunk: nat
    const recordBatch: nat
    /** Whether the core accepts the n-th send; refusals stand for cancelled requests and lost sockets. */
    const accepts: nat -> bool
    var attempts: nat
    var batching: bool
    var wire: seq<Message>
    var batched: seq<Message>

    ghost predicate Valid()
      reads this
    {
      chunk > 0 && recordBatch > 0 && (!batching ==> batched == [])
    }

    /** Everything sent so far in the order the client will see it. */
    ghost function Stream(): seq<Message>
      reads this
    {
      wire + batched
    }

    constructor (chunk: nat, recordBatch: nat, accepts: nat -> bool)
      requires chunk > 0 && recordBatch > 0
      ensures Valid() && Stream() == [] && this.chunk == chunk && this.accepts == accepts && attempts == 0
    {
      this.chunk, this.recordBatch, this.accepts := chunk, recordBatch, accepts;
      attempts, batching, wire, batched := 0, false, [], [];
    }

    method StartBatching()
      requires Valid()
      modifies this`batching
      ensures Valid() && batching
    {
      batching := true;
    }

    method CommitBatching()
      requires Valid()
      modifies this`batching, this`wire, this`batched
      ensures Valid() && !batching && Stream() == old(Stream())
      ensures wire == old(wire) + old(batched) && batched == []
    {
      wire, batched, batching := wire + batched, [], false;
    }

    method SendResult(m: Message) returns (ok: bool)
      requires Valid()
      modifies this`attempts, this`wire, this`batched
      ensures Valid() && attempts == old(attempts) + 1
      ensures ok == (Accepted([m], accepts, old(attempts)) == [m])
      ensures Stream() == old(Stream()) + Accepted([m], accepts, old(attempts))
      ensures wire == old(wire) + (if ok && !batching then [m] else [])
      ensures batched == old(batched) + (if ok && batching then [m] else [])
    {
      ok := accepts(attempts);
      attempts := attempts + 1;
      if ok {
        if batching {
          batched := batched + [m];
        } else {
          wire := wire + [m];
        }
      }
    }

    method SendMeta(columns: seq<byte>, index: uint64) returns (ok: bool)
      requires Valid()
      modifies this`attempts, this`wire, this`batched
      ensures Valid() && attempts == old(attempts) + 1
      ensures ok == (Accepted([RowsetHeader(columns, index)], accepts, old(attempts)) == [RowsetHeader(columns, index)])
      ensures Stream() == old(Stream()) + Accepted([RowsetHeader(columns, index)], accepts, old(attempts))
    {
      ok := SendResult(RowsetHeader(columns, index));
    }

    /**
      Sends on the fields packed so far. A batch that has grown to its threshold is sent first, and
      the message by itself behind it; a new batch is then open. Otherwise the message joins the batch.
    */
    method SendPacked(sb: seq<byte>) returns (ok: bool)
      requires Valid()
      modifies this`attempts, this`batching, this`wire, this`batched
      ensures Valid() && attempts == old(attempts) + 1 && batching == old(batching)
      ensures ok == (Accepted([Transferring(sb)], accepts, old(attempts)) == [Transferring(sb)])
      ensures Stream() == old(Stream()) + Accepted([Transferring(sb)], accepts, old(attempts))
      ensures var m := if ok then [Transferring(sb)] else [];
        if !batching then wire == old(wire) + m && batched == []
        else if BodyBytes(old(batched)) >= recordBatch then wire == old(wire) + old(batched) + m && batched == []
        else wire == old(wire) && batched == old(batched) + m
    {
      var full := BodyBytes(batched) >= recordBatch;
      if full {
        CommitBatching();
      }
      ok := SendResult(Transferring(sb));
      if full {
        StartBatching();
      }
    }

    /** Sends all chunks of a buffer but the last, and closes the blob with what remains. */
    method SendChunks(payload: seq<byte>) returns (ok: bool)
      requires Valid()
      modifies this`attempts, this`wire, this`batched
      ensures Valid() && old(wire) <= wire
      ensures var sent := Accepted(Chunks(payload, chunk), accepts, old(attempts));
        && ok == (sent == Chunks(payload, chunk))
        && Stream() == old(Stream()) + sent
        && (ok ==> attempts == old(attempts) + |sent|)
    {
      hide Accepted, Chunks;
      var buffer := payload;
      ghost var all := Chunks(payload, chunk);
      while |buffer| > chunk
        invariant Valid() && old(wire) <= wire && attempts + |Chunks(buffer, chunk)| == old(attempts) + |all|
        invariant Stream() + Accepted(Chunks(buffer, chunk), accepts, attempts)
                  == old(Stream()) + Accepted(all, accepts, old(attempts))
        invariant Accepted(Chunks(buffer, chunk), accepts, attempts) == Chunks(buffer, chunk)
                  <==> Accepted(all, accepts, old(attempts)) == all
        decreases |buffer|
      {
        ghost var next, others := [Chunk(buffer[..chunk])], Chunks(buffer[chunk..], chunk);
        NextChunk(buffer, chunk, accepts, attempts);
        Assoc(Stream(), next, Accepted(others, accepts, attempts + 1));
        ok := SendResult(Chunk(buffer[..chunk]));
        if !ok {
          return;
        }
        buffer := buffer[chunk..];
      }
      LastChunk(buffer, chunk);
      ok := SendResult(EndBlob(buffer));
    }

    /** Sends a large field: its type and length, and then its chunks. */
    method SendBlob(code: uint16, payload: seq<byte>) returns (ok: bool)
      requires Valid() && |payload| <= MAX_UINT32
      modifies this`attempts, this`wire, this`batched
      ensures Valid() && old(wire) <= wire
      ensures var ms := [BlobStart(code, |payload|)] + Chunks(payload, chunk);
        && ok == (Accepted(ms, accepts, old(attempts)) == ms)
        && Stream() == old(Stream()) + Accepted(ms, accepts, old(attempts))
        && (ok ==> attempts == old(attempts) + |ms|)
    {
      ghost var start := [BlobStart(code, |payload|)];
      AcceptedAppend(start, Chunks(payload, chunk), accepts, attempts);
      ok := SendResult(BlobStart(code, |payload|));
      if ok {
        Assoc(old(Stream()), start, Accepted(Chunks(payload, chunk), accepts, attempts));
        ok := SendChunks(payload);
      }
    }

    /**
      Sends one vector.  What reaches the client is the longest prefix of its messages that the
      core accepted, and the call succeeds exactly when that is all of them.
    */
    method SendRows(row: seq<DbVariant>) returns (ok: bool)
      requires Valid() && AllValid(row)
      modifies this`attempts, this`batching, this`wire, this`batched
      ensures Valid() && batching == old(batching) && old(wire) <= wire
      ensures var ms := RowMessages(row, [], chunk);
        && ok == (Accepted(ms, accepts, old(attempts)) == ms)
        && Stream() == old(Stream()) + Accepted(ms, accepts, old(attempts))
    {
      hide Accepted, Flush, BlobMessages, EncodeField, Big;
      ghost var all := RowMessages(row, [], chunk);
      var sb: seq<byte> := [];
      var n := 0;
      while n < |row|
        invariant n <= |row| && Valid() && batching == old(batching) && old(wire) <= wire
        invariant Stream() + Accepted(RowMessages(row[n..], sb, chunk), accepts, attempts)
                  == old(Stream()) + Accepted(all, accepts, old(attempts))
        invariant Accepted(RowMessages(row[n..], sb, chunk), accepts, attempts) == RowMessages(row[n..], sb, chunk)
                  <==> Accepted(all, accepts, old(attempts)) == all
      {
        assert row[n..][0] == row[n] && row[n..][1..] == row[n + 1..];
        if Big(row[n], chunk) {
          ghost var front, rest := Flush(sb) + BlobMessages(row[n], chunk), RowMessages(row[n + 1..], [], chunk);
          AcceptedAppend(front, rest, accepts, attempts);
          Assoc(Stream(), front, Accepted(rest, accepts, attempts + |front|));
          ok := SendLarge(sb, row[n]);
          if !ok {
            return;
          }
          sb := [];
        } else {
          sb := sb + EncodeField(row[n]);
        }
        n := n + 1;
      }
      ok := SendResult(EndRows(sb));
    }

    /** Sends on what is packed, if anything, and then a large field. */
    method SendLarge(sb: seq<byte>, d: DbVariant) returns (ok: bool)
      requires Valid() && d.value.Valid() && Big(d, chunk)
      modifies this`attempts, this`batching, this`wire, this`batched
      ensures Valid() && batching == old(batching) && old(wire) <= wire
      ensures var ms := Flush(sb) + BlobMessages(d, chunk);
        && ok == (Accepted(ms, accepts, old(attempts)) == ms)
        && Stream() == old(Stream()) + Accepted(ms, accepts, old(attempts))
        && (ok ==> attempts == old(attempts) + |ms|)
    {
      hide Accepted, Chunks, BlobStart, Encode;
      if sb != [] {
        AcceptedAppend([Transferring(sb)], BlobMessages(d, chunk), accepts, attempts);
        ok := SendPacked(sb);
        if !ok {
          return;
        }
        Assoc(old(Stream()), [Transferring(sb)], Accepted(BlobMessages(d, chunk), accepts, attempts));
      } else {
        assert Flush(sb) + BlobMessages(d, chunk) == BlobMessages(d, chunk);
      }
      ok := SendBlob(TypeCode(d), Payload(d));
    }
  }

  // The client

  class CachedBaseHandler {
    /** UTF-8 text to 16-bit text, which the client asks of every field it reads. */
    const toW: seq<byte> -> seq<uint16>
    var vData: seq<DbVariant>
    var blob: seq<byte>
    var indexRowset: uint64
    var mapRowset: map<uint64, Handler>
    /** The callbacks made so far, with their arguments. */
    var fired: seq<Event>
    /** The server's database system, as last told. */
    var ms: int

    function Conv(): Conversions {
      Conversions(Some(toW), None)
    }

    function State(): Receiver
      reads this
    {
      Receiver(vData, blob, indexRowset, mapRowset, fired)
    }

    constructor (toW: seq<byte> -> seq<uint16>)
      ensures this.toW == toW && State() == Receiver([], [], 0, map[], []) && ms == MS_UNKNOWN
    {
      this.toW := toW;
      vData, blob, indexRowset, mapRowset, fired, ms := [], [], 0, map[], [], MS_UNKNOWN;
    }

    /** Appends the fields of a message body to what has been gathered. */
    method GatherFields(body: seq<byte>) returns (failed: bool)
      modifies this`vData
      ensures failed <==> Gather(old(State()), body, Conv()).Err?
      ensures !failed ==> Gather(old(State()), body, Conv()) == Ok(State())
    {
      var mc := body;
      while mc != []
        invariant match DecodeFields(mc, Conv())
                  case Err(_) => DecodeFields(body, Conv()).Err?
                  case Ok(others) =>
                    DecodeFields(body, Conv()).Ok? && old(vData) + DecodeFields(body, Conv()).value == vData + others
        decreases |mc|
      {
        var field := DecodeField(mc, Conv());
        if field.Err? {
          return true;
        }
        if DecodeFields(field.value.rest, Conv()).Ok? {
          assert vData + ([field.value.value] + DecodeFields(field.value.rest, Conv()).value)
              == vData + [field.value.value] + DecodeFields(field.value.rest, Conv()).value;
        }
        vData := vData + [field.value.value];
        mc := field.value.rest;
      }
      failed := false;
      assert vData + [] == vData;
    }

    /** Finds the handler of the current rowset, creating an empty one if there is none. */
    method LookupHandler() returns (h: Handler)
      modifies this`mapRowset
      ensures State() == old(State()).Lookup() && h == mapRowset[indexRowset]
    {
      if indexRowset !in mapRowset {
        mapRowset := mapRowset[indexRowset := Handler(false, false)];
      }
      h := mapRowset[indexRowset];
    }

    /** One message from the server; `failed` stands for the exception of a failed read. */
    method OnResultReturned(m: Message) returns (failed: bool)
      modifies this`vData, this`blob, this`indexRowset, this`mapRowset, this`fired
      ensures failed <==> Step(old(State()), m, Conv()).Err?
      ensures !failed ==> Step(old(State()), m, Conv()) == Ok(State())
      ensures failed ==> fired == old(fired)
    {
      failed := false;
      match m
      case RowsetHeader(columns, index) =>
        blob, indexRowset, vData := [], index, [];
        var h := LookupHandler();
        assert fired + [] == fired;
        if h.onHeader {
          fired := fired + [HeaderCalled(columns, index)];
        }
      case BeginRows =>
        blob, vData := [], [];
      case Transferring(body) =>
        failed := GatherFields(body);
      case EndRows(body) =>
        failed := FinishRows(body);
      case StartBlob(body) =>
        blob := [];
        if |body| < 4 {
          return true;
        }
        blob := body[4..];
      case Chunk(body) =>
        blob := blob + body;
      case EndBlob(body) =>
        if body != [] || blob != [] {
          failed := CloseBlob(body);
        }
    }

    method FinishRows(body: seq<byte>) returns (failed: bool)
      modifies this`vData, this`blob, this`indexRowset, this`mapRowset, this`fired
      ensures failed <==> Step(old(State()), EndRows(body), Conv()).Err?
      ensures !failed ==> Step(old(State()), EndRows(body), Conv()) == Ok(State())
      ensures failed ==> fired == old(fired)
    {
      if body == [] && vData == [] {
        return false;
      }
      failed := GatherFields(body);
      if failed {
        return;
      }
      var h := LookupHandler();
      assert fired + [] == fired;
      if h.onRows {
        fired := fired + [RowsCalled(indexRowset, vData)];
      }
      vData := [];
    }

    method CloseBlob(body: seq<byte>) returns (failed: bool)
      modifies this`blob, this`vData
      ensures failed <==> FinishBlob(old(State()), old(blob) + body, Conv()).Err?
      ensures !failed ==> FinishBlob(old(State()), old(blob) + body, Conv()) == Ok(State())
    {
      blob := blob + body;
      if !(6 <= |blob| <= MAX_UINT32 + 6) {
        return true;
      }
      blob := FixLength(blob);
      var field := DecodeField(blob, Conv());
      if field.Err? {
        return true;
      }
      vData, blob := vData + [field.value.value], field.value.rest;
      return false;
    }

    /** Registers a rowset's callbacks and asks for the tables; a refused request leaves nothing registered. */
    method GetCachedTables(index: uint64, h: Handler, accepted: bool) returns (ok: bool)
      modifies this`mapRowset
      ensures ok == accepted
      ensures mapRowset == if accepted then old(mapRowset)[index := h] else old(mapRowset) - {index}
    {
      mapRowset := mapRowset[index := h];
      if !accepted {
        mapRowset := mapRowset - {index};
      }
      return accepted;
    }

    /** The reply to the request for the tables ends the registration and goes to the request's handler, if any. */
    method TablesReturned(index: uint64, dbMS: int, res: int, errMsg: string, handler: bool)
      returns (handled: Option<(int, string)>)
      modifies this`mapRowset, this`ms
      ensures mapRowset == old(mapRowset) - {index} && ms == dbMS
      ensures handled == if handler then Some((res, errMsg)) else None
    {
      ms := dbMS;
      if index in mapRowset {
        mapRowset := mapRowset - {index};
      }
      return if handler then Some((res, errMsg)) else None;
    }

    /** Forgets all registrations; the records of the requests are cleaned by the base class. */
    method CleanCallbacks()
      modifies this`mapRowset
      ensures mapRowset == map[]
      ensures forall ms :: Run(State(), ms, Conv()).Ok? ==> Run(State(), ms, Conv()).value.fired == fired
    {
      mapRowset := map[];
      forall ms | Run(State(), ms, Conv()).Ok?
        ensures Run(State(), ms, Conv()).value.fired == fired
      {
        UnregisteredFiresNothing(State(), ms, Conv());
      }
    }

    /** Moves all registrations to the handler of another socket. */
    method OnMergeTo(to: CachedBaseHandler)
      requires to != this
      modifies this`mapRowset, to`mapRowset
      ensures mapRowset == map[] && to.mapRowset == old(to.mapRowset) + old(mapRowset)
    {
      to.mapRowset := to.mapRowset + mapRowset;
      mapRowset := map[];
    }
  }

  /**
    End to end: the client calls the rows callback with the vector if and only if the server
    sent all of it; after a refused send the client has called nothing.
  */
  lemma VectorArrivesExactlyIfSent(r: Receiver, row: seq<DbVariant>, chunk: nat, accepts: nat -> bool, n: nat, cv: Conversions)
    requires chunk > 0 && AllValid(row) && row != [] && r.vData == [] && r.HasRows()
    ensures
      var ms := RowMessages(row, [], chunk);
      var run := Run(r, Accepted(ms, accepts, n), cv);
      && run.Ok?
      && run.value.fired == r.fired + (if Accepted(ms, accepts, n) == ms
                                       then [RowsCalled(r.indexRowset, ReceivedRow(row, chunk, cv))] else [])
  {
    hide Step, Run;
    var ms := RowMessages(row, [], chunk);
    var sent := Accepted(ms, accepts, n);
    VectorRoundTrip(r, row, chunk, cv);
    assert [row][1..] == [] && RowsCalls(r.indexRowset, [], chunk, cv) == [];
    if sent != ms {
      assert sent == ms[..|sent|];
      InterruptedVectorIsSilent(r, row, |sent|, chunk, cv);
    }
  }
}
