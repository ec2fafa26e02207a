/**
  The client's handler object and the record pool shared by all of them (class
  CAsyncServiceHandler in include/aclientw.cpp, CRR in include/aclientw.h), each method run
  undisturbed and proved to be the steps of Callbacks it consists of.
*/
module AsyncHandler {
  import opened Wrappers
  import opened Callbacks
  import opened CallbackEvents

  /** The largest request id reserved for the library, and the id of the server's interrupt notice. */
  const ID_RESERVED_TWO: nat := 0x2001
  const ID_INTERRUPT: nat := 29

  /** Who is told of a reply: the request's own callback, the listeners, or a virtual method. */
  datatype Call = OwnCallback | Listeners | OnInterrupted | OnResultReturned | OnExceptionFromServer

  /** The reply finds a record, and that record holds a callback for it. */
  predicate Answers(queue: seq<Rec>, entries: map<Rec, Entry>, reqId: nat, failed: bool, random: bool)
    requires Known(queue, entries)
  {
    var i := Matching(queue, entries, reqId, random);
    i.Some? && (if failed then entries[queue[i.value]].exception else entries[queue[i.value]].result)
  }

  /**
    The pool, with the memory of the records: `entries` is what each live one holds, `sends` the
    history of what any was filled for.
  */
  class RecordPool {
    var items: seq<Rec>
    var entries: map<Rec, Entry>
    var top: nat
    var sends: seq<Entry>

    constructor ()
      ensures items == [] && entries == map[] && top == 0 && sends == [] && Valid()
    {
      items, entries, top, sends := [], map[], 0, [];
    }

    /** Addresses from `top` on were never handed out. */
    ghost predicate Valid()
      reads this
    {
      forall r <- entries :: r < top
    }

    method Reuse() returns (r: Option<Rec>)
      modifies `items
      ensures r == if old(items) == [] then None else Some(old(items)[0])
      ensures items == if old(items) == [] then [] else old(items)[1..]
    {
      if items == [] {
        return None;
      }
      r := Some(items[0]);
      items := items[1..];
    }

    method Recycle(r: Rec)
      modifies `items
      ensures items == [r] + old(items)
    {
      items := [r] + items;
    }

    /** Deletes the records behind the first `remaining` ones. */
    method ClearResultCallbackPool(remaining: nat)
      requires Valid()
      modifies `items, `entries
      ensures Valid()
      ensures items == if remaining < |old(items)| then old(items)[..remaining] else old(items)
      ensures entries == if remaining < |old(items)| then old(entries) - set r | r in old(items)[remaining..]
                         else old(entries)
    {
      var kept := if remaining > |items| then |items| else remaining;
      var it := kept;
      while it < |items|
        invariant kept <= it <= |items| && items == old(items)
        invariant entries == old(entries) - set r | r in items[kept..it]
      {
        assert items[kept..it + 1] == items[kept..it] + [items[it]];
        entries := entries - {items[it]};
        it := it + 1;
      }
      assert items[kept..] == items[kept..|items|];
      if kept == |items| {
        assert items[..kept] == items;
        assert old(entries) - (set r | r in items[kept..]) == old(entries);
      }
      items := items[..kept];
    }
  }

  /** `log` is what the handler shows its users: the callbacks that fired, in order. */
  class AsyncServiceHandler {
    const stack: RecordPool
    var callback: seq<Rec>
    var batching: seq<Rec>
    var log: seq<Event>

    constructor (stack: RecordPool)
      ensures this.stack == stack && callback == [] && batching == [] && log == []
    {
      this.stack := stack;
      callback, batching, log := [], [], [];
    }

    ghost predicate Valid()
      reads this, stack
    {
      stack.Valid() && Known(callback, stack.entries) && Known(batching, stack.entries)
    }

    /** The handler as a state of Callbacks, with no step of another handler under way. */
    ghost function View(): State
      reads this, stack
    {
      State([Handler(callback, batching)], stack.items, [], [], stack.entries, multiset{}, stack.sends, log)
    }

    /** The record found for a reply is removed from the queue. */
    method GetAsyncResultHandler(reqId: nat, random: bool) returns (p: Option<Rec>)
      requires Valid()
      modifies `callback
      ensures Known(callback, stack.entries)
      ensures var i := Matching(old(callback), stack.entries, reqId, random);
        if i.None? then p == None && callback == old(callback)
        else p == Some(old(callback)[i.value]) && callback == Without(old(callback), i.value)
    {
      hide FirstOf;
      var count := |callback|;
      if random {
        var it := 0;
        while it < count
          invariant 0 <= it <= count == |callback| && callback == old(callback)
          invariant forall k :: 0 <= k < it ==> stack.entries[callback[k]].reqId != reqId
        {
          if stack.entries[callback[it]].reqId == reqId {
            p := Some(callback[it]);
            callback := Without(callback, it);
            return;
          }
          it := it + 1;
        }
      } else if count > 0 {
        if stack.entries[callback[0]].reqId == reqId {
          p := Some(callback[0]);
          callback := Without(callback, 0);
          return;
        }
      }
      p := None;
    }

    /** Removes the last occurrence of a record from the queue it is looked for in. */
    method Remove(fromBatch: bool, r: Rec) returns (ok: bool)
      modifies `callback, `batching
      ensures var q := if fromBatch then old(batching) else old(callback);
        var i := LastOf(q, r);
        var rest := if i.Some? then Without(q, i.value) else q;
        && ok == i.Some?
        && callback == (if fromBatch then old(callback) else rest)
        && batching == (if fromBatch then rest else old(batching))
    {
      var q := if fromBatch then batching else callback;
      var n := |q|;
      assert q[..n] == q;
      while n > 0
        invariant 0 <= n <= |q| && LastOf(q[..n], r) == LastOf(q, r)
      {
        assert q[..n][..n - 1] == q[..n - 1] && q[..n][n - 1] == q[n - 1];
        if q[n - 1] == r {
          if fromBatch {
            batching := Without(q, n - 1);
          } else {
            callback := Without(q, n - 1);
          }
          return true;
        }
        n := n - 1;
      }
      ok := false;
    }

    /** Fills a record completely for a new request. */
    method Fill(p: Rec, reqId: nat, result: bool, discarded: bool, exception: bool)
      requires stack.Valid() && p < stack.top
      modifies stack`entries, stack`sends
      ensures stack.Valid()
      ensures var e := Entry(|old(stack.sends)|, reqId, result, discarded, exception);
        stack.entries == old(stack.entries)[p := e] && stack.sends == old(stack.sends) + [e]
    {
      var e := Entry(|stack.sends|, reqId, result, discarded, exception);
      stack.entries := stack.entries[p := e];
      stack.sends := stack.sends + [e];
    }

    /** A record from the pool, or a new one, filled for the request. */
    method Prepare(reqId: nat, result: bool, discarded: bool, exception: bool) returns (p: Rec)
      requires stack.Valid()
      modifies stack
      ensures stack.Valid()
      ensures p == if old(stack.items) != [] then old(stack.items)[0] else old(stack.top)
      ensures stack.items == if old(stack.items) != [] then old(stack.items)[1..] else []
      ensures var e := Entry(|old(stack.sends)|, reqId, result, discarded, exception);
        stack.entries == old(stack.entries)[p := e] && stack.sends == old(stack.sends) + [e]
    {
      var reused := stack.Reuse();
      if reused.Some? {
        p := reused.value;
        if stack.top <= p {
          stack.top := p + 1;
        }
      } else {
        p := stack.top;
        stack.top := stack.top + 1;
      }
      Fill(p, reqId, result, discarded, exception);
    }

    /** The record of a request is queued, before the core is asked. */
    method Enqueue(reqId: nat, result: bool, discarded: bool, exception: bool, isBatching: bool) returns (p: Rec)
      requires Valid()
      modifies this`callback, this`batching, stack
      ensures Valid() && p == if old(stack.items) != [] then old(stack.items)[0] else old(stack.top)
      ensures callback == old(callback) + (if isBatching then [] else [p])
      ensures batching == old(batching) + (if isBatching then [p] else [])
      ensures p in stack.entries && stack.entries[p] == Entry(|old(stack.sends)|, reqId, result, discarded, exception)
      ensures View()
        == Begin(old(View()), 0, reqId, result, discarded, exception, isBatching, old(stack.top)).(pending := multiset{})
    {
      ghost var was := [Handler(callback, batching)];
      p := Prepare(reqId, result, discarded, exception);
      if isBatching {
        batching := batching + [p];
      } else {
        callback := callback + [p];
      }
      assert was[0 := Handler(callback, batching)] == [Handler(callback, batching)];
    }

    /**
      Sends a request; whether a batch is open and whether the core takes the request are answers
      of the core. A refused request's record is unqueued and recycled. A reserved id is an error.
    */
    method SendRequest(reqId: nat, result: bool, discarded: bool, exception: bool, isBatching: bool, accepted: bool)
      returns (sent: Result<bool, Failure>)
      requires Valid()
      modifies this`callback, this`batching, stack
      ensures Valid() && sent == if reqId <= ID_RESERVED_TWO then Err(InvalidArgument) else Ok(accepted)
      ensures sent.Ok? && (result || discarded || exception) ==>
        var b := Begin(old(View()), 0, reqId, result, discarded, exception, isBatching, old(stack.top))
                   .(pending := multiset{});
        var p := Pending(0, if old(stack.items) != [] then old(stack.items)[0] else old(stack.top), isBatching);
        View() == if accepted then b else Refuse(b, p)
      ensures sent.Err? || !(result || discarded || exception) ==> View() == old(View())
      ensures sent != Ok(true) ==> callback == old(callback) && batching == old(batching)
      ensures sent.Err? <==> reqId <= 0x2001
      ensures sent == Ok(true) && (result || discarded || exception) ==>
        exists p :: p in stack.entries
          && callback == old(callback) + (if isBatching then [] else [p])
          && batching == old(batching) + (if isBatching then [p] else [])
          && stack.entries[p] == Entry(|old(stack.sends)|, reqId, result, discarded, exception)
    {
      hide Begin, Refuse, Known;
      if reqId <= ID_RESERVED_TWO {
        return Err(InvalidArgument);
      }
      if !(result || discarded || exception) {
        return Ok(accepted);
      }
      var p := Enqueue(reqId, result, discarded, exception, isBatching);
      sent := Ok(accepted);
      if !accepted {
        ghost var q := if isBatching then old(batching) else old(callback);
        RefusedBack(View(), q, Pending(0, p, isBatching));
        LastIsFound(q, p);
        Unqueue(isBatching, p, q);
      }
    }

    method Unqueue(fromBatch: bool, p: Rec, ghost q: seq<Rec>)
      requires Valid() && (if fromBatch then batching else callback) == q + [p]
      modifies this`callback, this`batching, stack`items
      ensures Valid() && stack.items == [p] + old(stack.items)
      ensures callback == (if fromBatch then old(callback) else q) && batching == (if fromBatch then q else old(batching))
    {
      LastIsFound(q, p);
      var ok := Remove(fromBatch, p);
      if ok {
        stack.Recycle(p);
      }
    }

    method CommitBatching()
      requires Valid()
      modifies `callback, `batching
      ensures Valid() && View() == Next(old(View()), Commit(0))
      ensures callback == old(callback) + old(batching) && batching == []
    {
      callback := callback + batching;
      batching := [];
    }

    method AbortBatching()
      requires Valid()
      modifies `batching, stack`items
      ensures Valid() && View() == Next(old(View()), Abort(0))
      ensures batching == [] && stack.items == old(stack.items) + old(batching)
    {
      CleanQueue(batching);
      batching := [];
    }

    /** All records of a queue go to the end of the pool. */
    method CleanQueue(q: seq<Rec>)
      modifies stack`items
      ensures stack.items == old(stack.items) + q
    {
      if |q| > 0 {
        stack.items := stack.items + q;
      }
    }

    /**
      A result from the server: its callback fires, and the record goes to the front of the pool.
      Without a callback the listeners are asked, and the virtual method if none has `taken` it.
      An interrupt notice answers no request.
    */
    method OnRR(reqId: nat, random: bool, taken: bool) returns (calls: seq<Call>)
      requires Valid()
      modifies `callback, `log, stack`items
      ensures Valid()
      ensures calls == if reqId == ID_INTERRUPT then [OnInterrupted]
                       else if old(Answers(callback, stack.entries, reqId, false, random)) then [OwnCallback]
                       else if taken then [Listeners]
                       else [Listeners, OnResultReturned]
      ensures View() == if reqId == ID_INTERRUPT then old(View())
                        else Recycled(Answer(old(View()), 0, reqId, false, random))
      ensures forall i: nat | reqId != ID_INTERRUPT && IsMatch(old(callback), stack.entries, reqId, random, i) ::
        var r := old(callback)[i];
        && FiresOwn(old(log), log, stack.entries[r], false)
        && callback == old(callback)[..i] + old(callback)[i + 1..] && stack.items == [r] + old(stack.items)
    {
      if reqId == ID_INTERRUPT {
        return [OnInterrupted];
      }
      hide Matching, Answer, Recycled;
      AnsweredAndRecycled(View(), callback, batching, reqId, false, random);
      MatchIsAlone(callback, stack.entries, reqId, random);
      var p := GetAsyncResultHandler(reqId, random);
      if p.Some? && stack.entries[p.value].result {
        log := log + [Event(stack.entries[p.value].send, Returned)];
        calls := [OwnCallback];
      } else if taken {
        calls := [Listeners];
      } else {
        calls := [Listeners, OnResultReturned];
      }
      if p.Some? {
        stack.Recycle(p.value);
      }
    }

    /** An exception from the server: the virtual method, the request's callback, and the listeners in any case. */
    method OnSE(reqId: nat, random: bool) returns (calls: seq<Call>)
      requires Valid()
      modifies `callback, `log, stack`items
      ensures Valid() && View() == Recycled(Answer(old(View()), 0, reqId, true, random))
      ensures forall i: nat | IsMatch(old(callback), stack.entries, reqId, random, i) ::
        var r := old(callback)[i];
        && FiresOwn(old(log), log, stack.entries[r], true)
        && callback == old(callback)[..i] + old(callback)[i + 1..] && stack.items == [r] + old(stack.items)
      ensures calls == [OnExceptionFromServer]
                       + (if old(Answers(callback, stack.entries, reqId, true, random)) then [OwnCallback] else [])
                       + [Listeners]
    {
      hide Matching, Answer, Recycled;
      calls := [OnExceptionFromServer];
      AnsweredAndRecycled(View(), callback, batching, reqId, true, random);
      MatchIsAlone(callback, stack.entries, reqId, random);
      var p := GetAsyncResultHandler(reqId, random);
      if p.Some? {
        if stack.entries[p.value].exception {
          log := log + [Event(stack.entries[p.value].send, Exception)];
          calls := calls + [OwnCallback];
        }
        stack.Recycle(p.value);
      }
      calls := calls + [Listeners];
    }

    /** Fires the discarded callbacks of a queue taken out. */
    method Discard(q: seq<Rec>)
      requires Known(q, stack.entries)
      modifies `log
      ensures log == old(log) + Discards(q, stack.entries)
    {
      var it := 0;
      assert q[0..] == q;
      while it < |q|
        invariant 0 <= it <= |q| && Known(q[it..], stack.entries)
        invariant log + Discards(q[it..], stack.entries) == old(log) + Discards(q, stack.entries)
      {
        assert q[it..][1..] == q[it + 1..];
        var e := stack.entries[q[it]];
        ghost var was, more := log, Discards(q[it + 1..], stack.entries);
        if e.discarded {
          log := log + [Event(e.send, Discarded)];
          assert was + ([Event(e.send, Discarded)] + more) == log + more;
        } else {
          assert was + ([] + more) == log + more;
        }
        it := it + 1;
      }
      assert q[it..] == [];
      assert log + [] == log;
    }

    /** Empties both queues: every discarded callback fires and every record goes back to the pool. */
    method CleanCallbacks() returns (total: nat)
      requires Valid()
      modifies `callback, `batching, `log, stack`items
      ensures Valid() && total == |old(batching)| + |old(callback)|
      ensures callback == [] && batching == [] && stack.items == old(stack.items) + old(batching) + old(callback)
      ensures old(log) <= log && FiresInTurn(log[|old(log)|..], old(batching) + old(callback), stack.entries)
      ensures View() == PutBoth(SweepOut(old(View()), 0))
    {
      hide Discards, FiresInTurn;
      DiscardsInTurn(batching, callback, stack.entries);
      assert View().handlers[0] == Handler(callback, batching);
      var vBatching, vCallback := batching, callback;
      batching, callback := [], [];
      total := |vBatching|;
      Discard(vBatching);
      CleanQueue(vBatching);
      Discard(vCallback);
      CleanQueue(vCallback);
      total := total + |vCallback|;
      assert log[|old(log)|..] == Discards(vBatching, stack.entries) + Discards(vCallback, stack.entries);
    }

    /** Hands the outstanding records over to another handler of the same pool. */
    method AppendTo(to: AsyncServiceHandler)
      requires Valid() && to.Valid() && to != this && to.stack == stack
      modifies `callback, to`callback
      ensures Valid() && to.Valid() && callback == [] && to.callback == old(to.callback) + old(callback)
      ensures var s := View().(handlers := [Handler(old(callback), batching), Handler(old(to.callback), to.batching)]);
        s.(handlers := [Handler(callback, batching), Handler(to.callback, to.batching)]) == Next(s, Merge(0, 1))
    {
      to.callback := to.callback + callback;
      callback := [];
    }
  }

  /** A record queued last is found at once. */
  lemma RefusedBack(b: State, q: seq<Rec>, p: Pending)
    requires |b.handlers| == 1 && p.h == 0
    requires (if p.batching then b.handlers[0].batch else b.handlers[0].queue) == q + [p.r]
    ensures var at := b.handlers[0];
      Refuse(b, p) == b.(handlers := [if p.batching then at.(batch := q) else at.(queue := q)],
                         pool := [p.r] + b.pool, pending := b.pending - multiset{p})
  {
    hide LastOf, Without;
    LastIsFound(q, p.r);
    var at := b.handlers[0];
    var h := if p.batching then at.(batch := q) else at.(queue := q);
    assert b.handlers[0 := h] == [h];
  }

  /** What both steps do to a handler with no step of another under way. */
  lemma AnsweredAndRecycled(s: State, queue: seq<Rec>, batch: seq<Rec>, reqId: nat, failed: bool, random: bool)
    requires s.handlers == [Handler(queue, batch)] && s.held == [] && Known(queue, s.entries)
    ensures var m, t := Matching(queue, s.entries, reqId, random), Recycled(Answer(s, 0, reqId, failed, random));
      && (m.None? ==> t == s)
      && (m.Some? ==>
            t == s.(handlers := [Handler(Without(queue, m.value), batch)], pool := [queue[m.value]] + s.pool,
                    log := s.log + Fired(s.entries[queue[m.value]], failed)))
  {
    hide Matching, Without, Fired;
    var m := Matching(queue, s.entries, reqId, random);
    if m.Some? {
      assert ([] + [queue[m.value]])[..0] == [];
    }
  }

  /** The record popped last, if any was, is recycled. */
  ghost function Recycled(s: State): State {
    if s.held == [] then s else s.(held := s.held[..|s.held| - 1], pool := [s.held[|s.held| - 1]] + s.pool)
  }

  /** Both blocks taken out last are put back, the batch first. */
  ghost function PutBoth(s: State): State
    requires |s.swept| >= 2
  {
    var n := |s.swept| - 2;
    s.(swept := s.swept[..n], pool := s.pool + s.swept[n] + s.swept[n + 1])
  }
}
