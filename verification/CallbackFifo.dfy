/**
  Replies in random order (include/aclientw.cpp): over every run of CallbackOrder, the records of
  one request id are popped in the order in which they entered the callback queue.
*/
module CallbackFifo {
  import opened Wrappers
  import opened Callbacks
  import opened CallbackOrder

  /** The entries of one request id. */
  function OfId(es: seq<Entry>, reqId: nat): seq<Entry> {
    if es == [] then []
    else (if es[0].reqId == reqId then [es[0]] else []) + OfId(es[1..], reqId)
  }

  /** What the popped records held, in the order of the replies. */
  function Popped(answers: seq<Answered>): seq<Entry> {
    if answers == [] then []
    else (if answers[0].popped.Some? then [answers[0].popped.value] else []) + Popped(answers[1..])
  }

  lemma {:induction false} OfIdAppend(a: seq<Entry>, b: seq<Entry>, reqId: nat)
    ensures OfId(a + b, reqId) == OfId(a, reqId) + OfId(b, reqId)
  {
    if a == [] {
      assert a + b == b;
    } else {
      assert (a + b)[1..] == a[1..] + b;
      OfIdAppend(a[1..], b, reqId);
      Assoc(if a[0].reqId == reqId then [a[0]] else [], OfId(a[1..], reqId), OfId(b, reqId));
    }
  }

  lemma OfOne(e: Entry, id: nat)
    ensures OfId([e], id) == if e.reqId == id then [e] else []
  {
    assert [e][1..] == [];
  }

  lemma {:induction false} PoppedAppend(a: seq<Answered>, b: seq<Answered>)
    ensures Popped(a + b) == Popped(a) + Popped(b)
  {
    if a == [] {
      assert a + b == b;
    } else {
      assert (a + b)[1..] == a[1..] + b;
      PoppedAppend(a[1..], b);
      Assoc(if a[0].popped.Some? then [a[0].popped.value] else [], Popped(a[1..]), Popped(b));
    }
  }

  lemma PoppedOne(a: Answered)
    ensures Popped([a]) == if a.popped.Some? then [a.popped.value] else []
  {
    assert [a][1..] == [];
  }

  lemma {:induction false} DroppedAppend(a: seq<Entry>, b: seq<Entry>, send: nat)
    ensures Dropped(a + b, send) == Dropped(a, send) + Dropped(b, send)
  {
    if a == [] {
      assert a + b == b;
    } else {
      assert (a + b)[1..] == a[1..] + b;
      DroppedAppend(a[1..], b, send);
      Assoc(if a[0].send == send then [] else [a[0]], Dropped(a[1..], send), Dropped(b, send));
    }
  }

  ghost predicate NoSend(es: seq<Entry>, send: nat) {
    forall e <- es :: e.send != send
  }

  lemma {:induction false} DroppedNone(es: seq<Entry>, send: nat)
    requires NoSend(es, send)
    ensures Dropped(es, send) == es
  {
    if es != [] {
      DroppedNone(es[1..], send);
    }
  }

  lemma {:induction false} DroppedIn(es: seq<Entry>, send: nat)
    ensures forall e <- Dropped(es, send) :: e in es && e.send != send
  {
    if es != [] {
      DroppedIn(es[1..], send);
    }
  }

  /** Picking one id out and dropping one request commute. */
  lemma {:induction false} DroppedOfId(es: seq<Entry>, send: nat, id: nat)
    ensures OfId(Dropped(es, send), id) == Dropped(OfId(es, id), send)
  {
    if es != [] {
      DroppedOfId(es[1..], send, id);
      var first := if es[0].send == send then [] else [es[0]];
      OfIdAppend(first, Dropped(es[1..], send), id);
      OfOne(es[0], id);
      DroppedAppend(OfId([es[0]], id), OfId(es[1..], id), send);
      assert [es[0]][1..] == [];
    }
  }

  lemma {:induction false} OfIdIn(es: seq<Entry>, id: nat)
    ensures forall e <- OfId(es, id) :: e in es
  {
    if es != [] {
      OfIdIn(es[1..], id);
    }
  }

  // What a queue holds

  lemma {:induction false} HeldAt(queue: seq<Rec>, entries: map<Rec, Entry>)
    requires Known(queue, entries)
    ensures |HeldBy(queue, entries)| == |queue|
    ensures forall i :: 0 <= i < |queue| ==> HeldBy(queue, entries)[i] == entries[queue[i]]
  {
    if queue != [] {
      HeldAt(queue[1..], entries);
    }
  }

  lemma HeldAppend(a: seq<Rec>, b: seq<Rec>, entries: map<Rec, Entry>)
    requires Known(a, entries) && Known(b, entries)
    ensures Known(a + b, entries) && HeldBy(a + b, entries) == HeldBy(a, entries) + HeldBy(b, entries)
  {
    hide HeldBy;
    HeldAt(a, entries);
    HeldAt(b, entries);
    HeldAt(a + b, entries);
  }

  lemma HeldOne(r: Rec, entries: map<Rec, Entry>)
    requires r in entries
    ensures HeldBy([r], entries) == [entries[r]]
  {
    assert [r][1..] == [];
  }

  /** Records that keep what they hold. */
  lemma HeldStill(queue: seq<Rec>, entries: map<Rec, Entry>, entries': map<Rec, Entry>)
    requires Known(queue, entries)
    requires forall r <- queue :: r in entries' && entries'[r] == entries[r]
    ensures HeldBy(queue, entries') == HeldBy(queue, entries)
  {
    hide HeldBy;
    HeldAt(queue, entries);
    HeldAt(queue, entries');
  }

  lemma HeldSplit(queue: seq<Rec>, i: nat, entries: map<Rec, Entry>)
    requires Known(queue, entries) && i < |queue|
    ensures Known(queue[..i], entries) && Known(queue[i + 1..], entries) && Known(Without(queue, i), entries)
    ensures HeldBy(queue, entries) == HeldBy(queue[..i], entries) + ([entries[queue[i]]] + HeldBy(queue[i + 1..], entries))
    ensures HeldBy(Without(queue, i), entries) == HeldBy(queue[..i], entries) + HeldBy(queue[i + 1..], entries)
  {
    hide HeldBy;
    var a, r, b := queue[..i], queue[i], queue[i + 1..];
    assert queue == a + ([r] + b);
    assert Known([r], entries);
    HeldAppend([r], b, entries);
    HeldAppend(a, [r] + b, entries);
    HeldAppend(a, b, entries);
    HeldOne(r, entries);
  }

  lemma HeldIn(queue: seq<Rec>, entries: map<Rec, Entry>, e: Entry)
    requires Known(queue, entries)
    ensures e in HeldBy(queue, entries) <==> exists r :: r in queue && entries[r] == e
  {
    hide HeldBy;
    HeldAt(queue, entries);
    if e in HeldBy(queue, entries) {
      var i :| 0 <= i < |queue| && HeldBy(queue, entries)[i] == e;
      assert queue[i] in queue;
    }
    if r :| r in queue && entries[r] == e {
      var i :| 0 <= i < |queue| && queue[i] == r;
      assert HeldBy(queue, entries)[i] == e;
    }
  }

  // One step

  /** In either order a reply pops the first record of its id, and the order of all others stays. */
  lemma TakesFirst(queue: seq<Rec>, entries: map<Rec, Entry>, reqId: nat, random: bool, id: nat)
    requires Known(queue, entries)
    ensures var m := Matching(queue, entries, reqId, random);
      m.Some? ==>
        && Known(Without(queue, m.value), entries)
        && OfId(HeldBy(queue, entries), id)
        == OfId([entries[queue[m.value]]], id) + OfId(HeldBy(Without(queue, m.value), entries), id)
  {
    hide HeldBy, OfId;
    var m := Matching(queue, entries, reqId, random);
    if m.Some? {
      var i := m.value;
      var a, e, b := queue[..i], entries[queue[i]], queue[i + 1..];
      HeldSplit(queue, i, entries);
      OfIdAppend(HeldBy(a, entries), [e] + HeldBy(b, entries), id);
      OfIdAppend([e], HeldBy(b, entries), id);
      OfIdAppend(HeldBy(a, entries), HeldBy(b, entries), id);
      OfOne(e, id);
      if e.reqId == id {
        assert forall k :: 0 <= k < i ==> entries[queue[k]].reqId != reqId by { hide FirstOf; }
        HeldAt(a, entries);
        NoneOfId(HeldBy(a, entries), id);
      }
    }
  }

  lemma {:induction false} NoneOfId(es: seq<Entry>, id: nat)
    requires forall k :: 0 <= k < |es| ==> es[k].reqId != id
    ensures OfId(es, id) == []
  {
    if es != [] {
      NoneOfId(es[1..], id);
    }
  }

  /** In random order, if no record is popped, none of the id was there. */
  lemma RandomMissesNone(queue: seq<Rec>, entries: map<Rec, Entry>, reqId: nat)
    requires Known(queue, entries)
    ensures Matching(queue, entries, reqId, true).None? ==> OfId(HeldBy(queue, entries), reqId) == []
  {
    hide HeldBy, OfId, FirstOf;
    HeldAt(queue, entries);
    if Matching(queue, entries, reqId, true).None? {
      NoneOfId(HeldBy(queue, entries), reqId);
    }
  }

  // Whole runs

  ghost predicate Waiting(s: State, r: Rec)
    requires |s.handlers| == 1
  {
    r in s.handlers[0].queue || r in s.handlers[0].batch
  }

  /** No waiting record holds a request whose record was popped before. */
  ghost predicate PoppedApart(y: System) {
    && |y.s.handlers| == 1
    && (forall e <- Popped(y.answers) :: e.send < |y.s.sends|)
    && (forall r :: Waiting(y.s, r) ==> r in y.s.entries && NoSend(Popped(y.answers), y.s.entries[r].send))
  }

  /** Per id, what entered the queue is what was popped, in the same order, followed by what stands in the queue. */
  ghost predicate InTurnOfId(y: System, id: nat) {
    && |y.s.handlers| == 1 && Known(y.s.handlers[0].queue, y.s.entries)
    && OfId(y.entered, id) == OfId(Popped(y.answers), id) + OfId(HeldBy(y.s.handlers[0].queue, y.s.entries), id)
  }

  ghost predicate Fifo(y: System, id: nat) {
    OneHandler(y.s) && PoppedApart(y) && InTurnOfId(y, id)
  }

  /** Waiting records are live, and hold different requests of the past. */
  lemma WaitingOwn(s: State, r: Rec)
    requires OneHandler(s) && Waiting(s, r)
    ensures r in s.entries && s.entries[r].send < |s.sends| && s.sends[s.entries[r].send] == s.entries[r]
    ensures r !in s.pool && r !in s.held
    ensures forall q :: Waiting(s, q) && q != r ==> q in s.entries && s.entries[q].send != s.entries[r].send
  {
    hide Waits, Once, Conserved;
    Queued(s, 0, r);
    assert Own(s, r);
    forall q | Waiting(s, q) && q != r ensures q in s.entries && s.entries[q].send != s.entries[r].send {
      Queued(s, 0, q);
    }
  }

  lemma QueueKnown(s: State)
    requires OneHandler(s)
    ensures AllKnown(s) && Known(s.handlers[0].queue, s.entries) && Known(s.handlers[0].batch, s.entries)
  {
    hide Conserved, Faithful;
    ConservedIsKnown(s);
  }

  /** An act that moves no record of the queue and pops none. */
  lemma QuietAct(y: System, z: System, id: nat)
    requires Fifo(y, id) && OneHandler(z.s)
    requires z.answers == y.answers && z.entered == y.entered && |y.s.sends| <= |z.s.sends|
    requires z.s.handlers[0].queue == y.s.handlers[0].queue
    requires forall r <- z.s.handlers[0].batch ::
      r in z.s.entries && ((Waiting(y.s, r) && z.s.entries[r] == y.s.entries[r]) || z.s.entries[r].send >= |y.s.sends|)
    requires forall r <- y.s.handlers[0].queue :: r in z.s.entries && z.s.entries[r] == y.s.entries[r]
    ensures Fifo(z, id)
  {
    hide Inv, HeldBy, OfId, Popped;
    HeldStill(y.s.handlers[0].queue, y.s.entries, z.s.entries);
  }

  lemma SendFifo(y: System, act: Act, id: nat)
    requires act.Send? && Possible(y, act) && Fifo(y, id)
    ensures Fifo(Do(y, act), id)
  {
    hide Inv, HeldBy, OfId, Popped;
    DoKeepsInv(y, act);
    var z := Do(y, act);
    var r := z.current.value;
    QueueKnown(y.s);
    PoolIsNotQueued(y.s, r.rec, act.made);
    var queue := y.s.handlers[0].queue;
    if y.batching {
      QuietAct(y, z, id);
    } else {
      assert z.s.handlers[0].queue == queue + [r.rec] && z.s.handlers[0].batch == y.s.handlers[0].batch;
      HeldStill(queue, y.s.entries, z.s.entries);
      HeldAppend(queue, [r.rec], z.s.entries);
      HeldOne(r.rec, z.s.entries);
      OfIdAppend(y.entered, [r.entry], id);
      OfIdAppend(HeldBy(queue, y.s.entries), [r.entry], id);
      Assoc(OfId(Popped(y.answers), id), OfId(HeldBy(queue, y.s.entries), id), OfId([r.entry], id));
    }
  }

  lemma UnqueueFifo(y: System, act: Act, id: nat)
    requires act.Unqueue? && Possible(y, act) && Fifo(y, id)
    ensures Fifo(Do(y, act), id)
  {
    hide Inv, HeldBy, OfId, Popped, LastOf, Without, Dropped;
    DoKeepsInv(y, act);
    QueueKnown(y.s);
    var z := Do(y, act);
    var queue := y.s.handlers[0].queue;
    var r := (if act.inBatch then y.later else y.line)[act.i].request.rec;
    if act.inBatch {
      WithoutIn(y.s.handlers[0].batch, r);
      QuietAct(y, z, id);
    } else if r !in queue {
      QuietAct(y, z, id);
    } else {
      var i := LastOf(queue, r).value;
      assert z.s.handlers[0] == Handler(Without(queue, i), y.s.handlers[0].batch);
      WithoutIn(queue, r);
      WaitingOwn(y.s, r);
      HeldDropped(y.s, i);
      var send, held := y.s.entries[r].send, HeldBy(queue, y.s.entries);
      DroppedOfId(y.entered, send, id);
      DroppedOfId(held, send, id);
      DroppedAppend(OfId(Popped(y.answers), id), OfId(held, id), send);
      OfIdIn(Popped(y.answers), id);
      DroppedNone(OfId(Popped(y.answers), id), send);
    }
  }

  lemma WithoutIn(q: seq<Rec>, r: Rec)
    ensures var i := LastOf(q, r); i.Some? ==> forall x <- Without(q, i.value) :: x in q
  {
    hide LastOf;
  }

  /** Taking one record out of the queue takes its request out of what the queue holds. */
  lemma HeldDropped(s: State, i: nat)
    requires OneHandler(s) && i < |s.handlers[0].queue|
    ensures Known(s.handlers[0].queue, s.entries) && Known(Without(s.handlers[0].queue, i), s.entries)
    ensures var queue := s.handlers[0].queue;
      HeldBy(Without(queue, i), s.entries) == Dropped(HeldBy(queue, s.entries), s.entries[queue[i]].send)
  {
    hide Inv, HeldBy, Dropped, Times, Without;
    QueueKnown(s);
    var queue := s.handlers[0].queue;
    var a, r, b := queue[..i], queue[i], queue[i + 1..];
    HeldSplit(queue, i, s.entries);
    WaitingOwn(s, r);
    WaitsOnce(s, r);
    assert queue == a + [r] + b;
    TimesAppend(a + [r], b, r);
    TimesAppend(a, [r], r);
    TimesOne(r, r);
    TimesIn(a, r);
    TimesIn(b, r);
    var send := s.entries[r].send;
    NoneHolds(s, a, r);
    NoneHolds(s, b, r);
    DroppedAppend(HeldBy(a, s.entries), [s.entries[r]] + HeldBy(b, s.entries), send);
    DroppedAppend([s.entries[r]], HeldBy(b, s.entries), send);
    DroppedNone(HeldBy(a, s.entries), send);
    DroppedNone(HeldBy(b, s.entries), send);
    DroppedOne(s.entries[r]);
  }

  lemma DroppedOne(e: Entry)
    ensures Dropped([e], e.send) == []
  {
    assert [e][1..] == [];
  }

  lemma NoneHolds(s: State, q: seq<Rec>, r: Rec)
    requires OneHandler(s) && Waiting(s, r) && r !in q && forall x <- q :: Waiting(s, x)
    ensures Known(q, s.entries) && r in s.entries && NoSend(HeldBy(q, s.entries), s.entries[r].send)
  {
    hide Inv, HeldBy;
    WaitingOwn(s, r);
    forall e <- HeldBy(q, s.entries) ensures e.send != s.entries[r].send {
      HeldIn(q, s.entries, e);
    }
  }

  lemma CommitFifo(y: System, id: nat)
    requires Possible(y, CommitBatch) && Fifo(y, id)
    ensures Fifo(Do(y, CommitBatch), id)
  {
    hide Inv, HeldBy, OfId, Popped;
    DoKeepsInv(y, CommitBatch);
    QueueKnown(y.s);
    var z := Do(y, CommitBatch);
    var at := y.s.handlers[0];
    assert z.s.handlers[0] == Handler(at.queue + at.batch, []);
    HeldAppend(at.queue, at.batch, y.s.entries);
    var a, b := HeldBy(at.queue, y.s.entries), HeldBy(at.batch, y.s.entries);
    OfIdAppend(y.entered, b, id);
    OfIdAppend(a, b, id);
    Assoc(OfId(Popped(y.answers), id), OfId(a, id), OfId(b, id));
  }

  lemma RespondFifo(y: System, i: nat, failed: bool, id: nat)
    requires Possible(y, Respond(i, failed)) && Fifo(y, id)
    ensures Fifo(Do(y, Respond(i, failed)), id)
  {
    hide Inv, HeldBy, OfId, Matching, Popped, Without, Fired;
    DoKeepsInv(y, Respond(i, failed));
    QueueKnown(y.s);
    var z := Do(y, Respond(i, failed));
    var queue := y.s.handlers[0].queue;
    var m := Matching(queue, y.s.entries, y.line[i].request.ReqId(), y.random);
    var a := z.answers[|y.answers|];
    PoppedAppend(y.answers, [a]);
    PoppedOne(a);
    OfIdAppend(Popped(y.answers), Popped([a]), id);
    if m.Some? {
      var r := queue[m.value];
      assert z.s.handlers[0] == Handler(Without(queue, m.value), y.s.handlers[0].batch);
      TakesFirst(queue, y.s.entries, y.line[i].request.ReqId(), y.random, id);
      Assoc(OfId(Popped(y.answers), id), OfId(Popped([a]), id), OfId(HeldBy(Without(queue, m.value), y.s.entries), id));
      WaitingOwn(y.s, r);
      GoneFor(y.s, m.value);
    } else {
      assert Popped(y.answers) + [] == Popped(y.answers);
      assert z.s == y.s;
    }
  }

  /** A popped record does not wait any more. */
  lemma GoneFor(s: State, i: nat)
    requires OneHandler(s) && i < |s.handlers[0].queue|
    ensures var q := s.handlers[0].queue;
      && q[i] !in s.handlers[0].batch && q[i] !in Without(q, i) && forall x <- Without(q, i) :: x in q
  {
    hide Inv, Times;
    var q := s.handlers[0].queue;
    WaitsOnce(s, q[i]);
    TimesWithout(q, i, q[i]);
    TimesIn(Without(q, i), q[i]);
    TimesIn(s.handlers[0].batch, q[i]);
  }

  lemma DoKeepsFifo(y: System, act: Act, id: nat)
    requires Possible(y, act) && Fifo(y, id)
    ensures Fifo(Do(y, act), id)
  {
    hide Inv, PoppedApart, InTurnOfId;
    match act
    case Send(_, _, _, _, _) => SendFifo(y, act, id);
    case Unqueue(_, _) => UnqueueFifo(y, act, id);
    case CommitBatch => CommitFifo(y, id);
    case Respond(i, failed) => RespondFifo(y, i, failed, id);
    case _ => OtherFifo(y, act, id);
  }

  lemma OtherFifo(y: System, act: Act, id: nat)
    requires !act.Send? && !act.Unqueue? && !act.CommitBatch? && !act.Respond?
    requires Possible(y, act) && Fifo(y, id)
    ensures Fifo(Do(y, act), id)
  {
    hide Inv, HeldBy, OfId, Popped;
    DoKeepsInv(y, act);
    QueueKnown(y.s);
    QuietAct(y, Do(y, act), id);
  }

  lemma {:induction false} RunKeepsFifo(y: System, acts: seq<Act>, id: nat)
    requires Fifo(y, id) && RunAll(y, acts).Some?
    ensures Fifo(RunAll(y, acts).value, id)
    decreases |acts|
  {
    hide PoppedApart, InTurnOfId, Do, Possible, OneHandler;
    if acts != [] {
      DoKeepsFifo(y, acts[0], id);
      RunKeepsFifo(Do(y, acts[0]), acts[1..], id);
    }
  }

  /**
    Over every run, in order or in random order and with replies of any kind: for each request id,
    what entered the callback queue and was not taken out by a refusal is what replies have
    popped, in the same order, followed by what the queue still holds.
  */
  lemma FirstInFirstOut(acts: seq<Act>, random: bool, id: nat)
    requires RunAll(Fresh(random), acts).Some?
    ensures InTurnOfId(RunAll(Fresh(random), acts).value, id)
  {
    hide RunAll, Inv;
    StartIsExact(random);
    RunKeepsFifo(Fresh(random), acts, id);
  }
}
