/**
  What the first-in-first-out law of CallbackFifo says about the requests the core took: while no
  reply pops the record of a send that is undecided or refused, what entered the callback queue
  is what was put on the wire, once no such send is left.
*/
module CallbackAccepted {
  import opened Wrappers
  import opened Callbacks
  import opened CallbackOrder
  import opened CallbackFifo

  /** The entries of the sends in line that are undecided or refused. */
  function Unsettled(slots: seq<Slot>): seq<Entry> {
    if slots == [] then []
    else (if slots[0].request.Tracked? && slots[0].status != Sent then [slots[0].request.entry] else [])
         + Unsettled(slots[1..])
  }

  /** The reply did not pop the record of an undecided or refused send. */
  predicate Settled(a: Answered) {
    a.popped.Some? ==> a.popped.value !in Unsettled(a.line)
  }

  /** The entries of requests that are not among others. */
  ghost function Minus(es: seq<Entry>, us: seq<Entry>): seq<Entry> {
    if es == [] then [] else (if NoSend(us, es[0].send) then [es[0]] else []) + Minus(es[1..], us)
  }

  ghost predicate Distinct(es: seq<Entry>) {
    forall i, j :: 0 <= i < j < |es| ==> es[i].send != es[j].send
  }

  ghost predicate Below(es: seq<Entry>, n: nat) {
    forall e <- es :: e.send < n
  }

  ghost predicate BatchInStep(y: System) {
    && |y.s.handlers| == 1
    && y.s.handlers[0].batch == Recs(InBatch(y)) && HoldAll(y.s, InBatch(y))
    && (!y.batching ==> y.later == [])
    && (y.current.Some? ==> y.current.value.Tracked?)
  }

  /** The record of an undecided or refused send is in the queue and still holds it. */
  ghost predicate StillQueued(y: System)
    requires |y.s.handlers| == 1
  {
    forall x <- InLine(y) :: x.request.Tracked? && x.status != Sent ==>
      x.request.rec in y.s.handlers[0].queue && x.request.rec in y.s.entries && y.s.entries[x.request.rec] == x.request.entry
  }

  ghost predicate Accounted(y: System)
    requires |y.s.handlers| == 1
  {
    var us := Unsettled(InLine(y));
    && Distinct(us) && Below(us, |y.s.sends|)
    && Distinct(y.entered) && Below(y.entered, |y.s.sends|)
    && (forall r <- y.s.handlers[0].batch :: r in y.s.entries ==> NoSend(y.entered, y.s.entries[r].send))
    && Minus(y.entered, us) == y.wired
    && (y.current.Some? && !y.batching ==>
          y.current.value.Tracked? && |y.entered| > 0 && y.entered[|y.entered| - 1] == y.current.value.entry)
  }

  ghost predicate Kept(y: System) {
    OneHandler(y.s) && Orderly(y) && BatchInStep(y) && StillQueued(y) && Accounted(y)
  }

  // Sequences of entries

  lemma {:induction false} UnsettledAppend(a: seq<Slot>, b: seq<Slot>)
    ensures Unsettled(a + b) == Unsettled(a) + Unsettled(b)
  {
    if a == [] {
      assert a + b == b;
    } else {
      assert (a + b)[1..] == a[1..] + b;
      UnsettledAppend(a[1..], b);
      Assoc(if a[0].request.Tracked? && a[0].status != Sent then [a[0].request.entry] else [],
            Unsettled(a[1..]), Unsettled(b));
    }
  }

  lemma UnsettledOne(x: Slot)
    ensures Unsettled([x]) == if x.request.Tracked? && x.status != Sent then [x.request.entry] else []
    ensures Unsettled([]) == []
  {
    assert [x][1..] == [];
  }

  lemma {:induction false} UnsettledIn(slots: seq<Slot>, e: Entry)
    ensures e in Unsettled(slots) <==>
      exists x :: x in slots && x.request.Tracked? && x.status != Sent && x.request.entry == e
  {
    if slots != [] {
      UnsettledIn(slots[1..], e);
      assert slots == [slots[0]] + slots[1..];
      if x :| x in slots && x.request.Tracked? && x.status != Sent && x.request.entry == e {
        assert x == slots[0] || x in slots[1..];
      }
    }
  }

  lemma {:induction false} NoneUnsettled(slots: seq<Slot>)
    requires forall x <- slots :: x.status == Sent
    ensures Unsettled(slots) == []
  {
    if slots != [] {
      NoneUnsettled(slots[1..]);
    }
  }

  lemma {:induction false} MinusAppend(a: seq<Entry>, b: seq<Entry>, us: seq<Entry>)
    ensures Minus(a + b, us) == Minus(a, us) + Minus(b, us)
  {
    if a == [] {
      assert a + b == b;
    } else {
      assert (a + b)[1..] == a[1..] + b;
      MinusAppend(a[1..], b, us);
      Assoc(if NoSend(us, a[0].send) then [a[0]] else [], Minus(a[1..], us), Minus(b, us));
    }
  }

  lemma MinusOne(e: Entry, us: seq<Entry>)
    ensures Minus([e], us) == if NoSend(us, e.send) then [e] else []
  {
    assert [e][1..] == [];
  }

  lemma {:induction false} MinusSame(es: seq<Entry>, us: seq<Entry>, vs: seq<Entry>)
    requires forall e <- es :: NoSend(us, e.send) <==> NoSend(vs, e.send)
    ensures Minus(es, us) == Minus(es, vs)
  {
    if es != [] {
      MinusSame(es[1..], us, vs);
    }
  }

  lemma MinusNone(es: seq<Entry>)
    ensures Minus(es, []) == es
  {
    MinusNothing(es, []);
  }

  lemma {:induction false} MinusNothing(es: seq<Entry>, us: seq<Entry>)
    requires forall e <- es :: NoSend(us, e.send)
    ensures Minus(es, us) == es
  {
    if es != [] {
      MinusNothing(es[1..], us);
    }
  }

  /** Dropping a request before, or leaving it out after. */
  lemma {:induction false} MinusDropped(es: seq<Entry>, x: Entry, us: seq<Entry>, vs: seq<Entry>)
    requires forall send :: NoSend(us, send) <==> NoSend(vs, send) && send != x.send
    ensures Minus(Dropped(es, x.send), vs) == Minus(es, us)
  {
    if es != [] {
      MinusDropped(es[1..], x, us, vs);
      var first := if es[0].send == x.send then [] else [es[0]];
      MinusAppend(first, Dropped(es[1..], x.send), vs);
      MinusOne(es[0], vs);
    }
  }

  lemma {:induction false} DroppedDistinct(es: seq<Entry>, send: nat)
    requires Distinct(es)
    ensures Distinct(Dropped(es, send))
  {
    if es != [] {
      forall i, j | 0 <= i < j < |es[1..]| ensures es[1..][i].send != es[1..][j].send {
        assert es[1..][i] == es[i + 1] && es[1..][j] == es[j + 1];
      }
      DroppedDistinct(es[1..], send);
      DroppedIn(es[1..], send);
      var rest := Dropped(es[1..], send);
      forall e <- rest ensures e.send != es[0].send {
        assert e in es[1..];
        var i :| 0 <= i < |es[1..]| && es[1..][i] == e;
        assert es[i + 1] == e;
      }
    }
  }

  lemma DistinctJoin(a: seq<Entry>, b: seq<Entry>)
    requires Distinct(a) && Distinct(b) && forall e <- b :: NoSend(a, e.send)
    ensures Distinct(a + b)
  {
    var es := a + b;
    forall i, j | 0 <= i < j < |es| ensures es[i].send != es[j].send {
      if j >= |a| {
        assert es[j] == b[j - |a|] && b[j - |a|] in b;
        if i < |a| {
          assert es[i] == a[i] && a[i] in a;
        } else {
          assert es[i] == b[i - |a|];
        }
      } else {
        assert es[i] == a[i] && es[j] == a[j];
      }
    }
  }

  lemma DistinctParts(a: seq<Entry>, x: Entry, b: seq<Entry>)
    requires Distinct(a + ([x] + b))
    ensures Distinct(a + b) && NoSend(a + b, x.send)
  {
    var es := a + ([x] + b);
    assert es[|a|] == x;
    forall e <- a + b ensures e.send != x.send {
      var i :| 0 <= i < |a + b| && (a + b)[i] == e;
      assert e == es[if i < |a| then i else i + 1];
    }
    forall i, j | 0 <= i < j < |a + b| ensures (a + b)[i].send != (a + b)[j].send {
      assert (a + b)[i] == es[if i < |a| then i else i + 1];
      assert (a + b)[j] == es[if j < |a| then j else j + 1];
    }
  }

  // The batch

  lemma BatchStays(y: System, z: System)
    requires OneHandler(y.s) && BatchInStep(y) && |z.s.handlers| == 1
    requires z.s.handlers[0].batch == y.s.handlers[0].batch && InBatch(z) == InBatch(y)
    requires z.batching == y.batching && z.later == y.later && (z.current.Some? ==> z.current.value.Tracked?)
    requires forall r <- y.s.handlers[0].batch :: r in y.s.entries ==> r in z.s.entries && z.s.entries[r] == y.s.entries[r]
    ensures BatchInStep(z)
  {
    hide Inv, HoldAll, Recs;
    HoldsStill(y.s, z.s, InBatch(y));
  }

  lemma SendBatch(y: System, act: Act)
    requires act.Send? && Possible(y, act) && OneHandler(y.s) && BatchInStep(y)
    ensures BatchInStep(Do(y, act))
  {
    hide Inv, HoldAll, Recs;
    var z := Do(y, act);
    var x := Slot(z.current.value, Undecided);
    PoolIsNotQueued(y.s, x.request.rec, act.made);
    assert y.later + [] == y.later;
    if y.batching {
      RecsPush(y.later, x);
      HoldsStill(y.s, z.s, y.later);
      HoldsJoin(z.s, y.later, [x]);
      HoldsOne(z.s, x);
    } else {
      BatchStays(y, z);
    }
  }

  lemma DecisionBatch(y: System, act: Act)
    requires (act.Accept? || act.RefuseIt?) && Possible(y, act) && OneHandler(y.s) && BatchInStep(y)
    ensures BatchInStep(Do(y, act))
  {
    hide Inv, HoldAll, Recs;
    var after := Slot(y.current.value, if act.Accept? then Sent else Refused);
    Renamed(y.s, y.later, Slot(y.current.value, Undecided), after);
    assert y.later + [after] + [] == y.later + [after] && y.later + [] == y.later;
  }

  lemma UnqueueBatch(y: System, act: Act)
    requires act.Unqueue? && Possible(y, act) && OneHandler(y.s) && BatchInStep(y)
    ensures BatchInStep(Do(y, act))
  {
    hide Inv, Recs, HoldAll, Times, LastOf, Without;
    var z := Do(y, act);
    if act.inBatch {
      var tail := InBatch(y)[|y.later|..];
      var r := y.later[act.i].request.rec;
      assert y.later + tail == InBatch(y);
      SlotTakenOut(y.later, act.i, tail);
      WaitsOnce(y.s, r);
      FoundInMiddle(Recs(y.later[..act.i]), r, Recs(y.later[act.i + 1..] + tail));
      HoldsWithout(y.s, y.later, act.i, tail);
      assert InBatch(z) == Without(y.later, act.i) + tail;
      HoldsStill(y.s, z.s, InBatch(z));
    } else {
      BatchStays(y, z);
    }
  }

  lemma BareBatch(y: System, act: Act)
    requires act.SendBare? && OneHandler(y.s) && BatchInStep(y)
    ensures BatchInStep(Do(y, act))
  {
    hide Inv, Recs, HoldAll;
    var b := Slot(Bare(act.reqId), Sent);
    BareBetween(y.s, y.later, b, InBatch(y)[|y.later|..]);
  }

  lemma DoKeepsBatch(y: System, act: Act)
    requires Possible(y, act) && OneHandler(y.s) && BatchInStep(y)
    ensures BatchInStep(Do(y, act))
  {
    hide Inv, BatchInStep;
    match act
    case Send(_, _, _, _, _) => SendBatch(y, act);
    case Accept => DecisionBatch(y, act);
    case RefuseIt => DecisionBatch(y, act);
    case Unqueue(_, _) => UnqueueBatch(y, act);
    case SendBare(_, _) => BareBatch(y, act);
    case Respond(i, failed) => RespondBatch(y, i, failed);
    case _ => ClosedBatch(y, act);
  }

  lemma RespondBatch(y: System, i: nat, failed: bool)
    requires Possible(y, Respond(i, failed)) && OneHandler(y.s) && BatchInStep(y)
    ensures BatchInStep(Do(y, Respond(i, failed)))
  {
    hide Inv, Recs, HoldAll, Matching, Fired;
    QueueKnown(y.s);
    BatchStays(y, Do(y, Respond(i, failed)));
  }

  lemma ClosedBatch(y: System, act: Act)
    requires act.StartBatch? || act.CommitBatch? || act.AbortBatch? || act.RecycleOne?
    requires Possible(y, act) && OneHandler(y.s) && BatchInStep(y)
    ensures BatchInStep(Do(y, act))
  {
    hide Inv, Recs, HoldAll;
    var z := Do(y, act);
    assert y.later + [] == y.later && z.later + [] == z.later;
    NoSlots(z.s);
    if act.RecycleOne? {
      BatchStays(y, z);
    }
  }

  // The line and the history

  /** An act that leaves line and queue alone. */
  lemma SameLine(y: System, z: System)
    requires Kept(y) && |z.s.handlers| == 1 && |y.s.sends| <= |z.s.sends|
    requires InLine(z) == InLine(y) && z.s.handlers[0].queue == y.s.handlers[0].queue
    requires z.entered == y.entered && z.wired == y.wired
    requires z.current.Some? && !z.batching ==> z.current == y.current && !y.batching
    requires forall r <- y.s.handlers[0].queue :: r in y.s.entries ==> r in z.s.entries && z.s.entries[r] == y.s.entries[r]
    requires forall r <- z.s.handlers[0].batch :: r in z.s.entries ==> NoSend(z.entered, z.s.entries[r].send)
    ensures StillQueued(z) && Accounted(z)
  {
    hide Inv, Unsettled, Minus, Distinct, BatchInStep, Orderly, NoSend;
  }

  lemma SendKept(y: System, act: Act)
    requires act.Send? && Possible(y, act) && Kept(y)
    ensures |Do(y, act).s.handlers| == 1 && StillQueued(Do(y, act)) && Accounted(Do(y, act))
  {
    hide Inv, Unsettled, Minus, Distinct, BatchInStep, Orderly;
    var z := Do(y, act);
    var x := Slot(z.current.value, Undecided);
    var e := x.request.entry;
    PoolIsNotQueued(y.s, x.request.rec, act.made);
    forall r <- y.s.handlers[0].batch ensures r in y.s.entries && y.s.entries[r].send < |y.s.sends| {
      WaitingOwn(y.s, r);
    }
    if y.batching {
      assert y.line + [] == y.line;
      SameLine(y, z);
    } else {
      assert y.line + [] == y.line && z.line + [x] == InLine(z);
      SendCounts(y, x);
      assert z.entered == y.entered + [e] && Minus(y.entered + [e], Unsettled(InLine(z))) == z.wired;
    }
  }

  /** A new send enters the queue, and is undecided. */
  lemma SendCounts(y: System, x: Slot)
    requires x.request.Tracked? && x.status == Undecided && x.request.entry.send == |y.s.sends|
    requires |y.s.handlers| == 1 && Accounted(y) && InLine(y) == y.line
    ensures var us, e := Unsettled(y.line + [x]), x.request.entry;
      && Distinct(us) && Below(us, |y.s.sends| + 1)
      && Distinct(y.entered + [e]) && Below(y.entered + [e], |y.s.sends| + 1)
      && Minus(y.entered + [e], us) == y.wired
  {
    hide Unsettled, Minus, Distinct;
    var e := x.request.entry;
    var us := Unsettled(y.line);
    UnsettledAppend(y.line, [x]);
    UnsettledOne(x);
    DistinctOne(e);
    DistinctJoin(us, [e]);
    DistinctJoin(y.entered, [e]);
    MinusAppend(y.entered, [e], us + [e]);
    MinusSame(y.entered, us, us + [e]);
    MinusOne(e, us + [e]);
    assert e in us + [e];
    assert y.wired + [] == y.wired;
  }

  lemma DistinctOne(e: Entry)
    ensures Distinct([e]) && Distinct([])
  {
  }

  lemma AcceptKept(y: System)
    requires Possible(y, Accept) && Kept(y)
    ensures |Do(y, Accept).s.handlers| == 1 && StillQueued(Do(y, Accept)) && Accounted(Do(y, Accept))
  {
    hide Inv, Unsettled, Minus, Distinct, BatchInStep, Orderly;
    var z := Do(y, Accept);
    assert y.line + [] == y.line && z.line + [] == z.line;
    assert forall x <- y.line :: x in InLine(y);
    if y.batching {
      SameLine(y, z);
    } else {
      var c := y.current.value;
      AcceptCounts(y, c);
      EntriesOne(Slot(c, Sent));
    }
  }

  /** The undecided send that entered last is put on the wire. */
  lemma AcceptCounts(y: System, c: Request)
    requires c.Tracked? && InLine(y) == y.line + [Slot(c, Undecided)]
    requires |y.s.handlers| == 1 && Accounted(y) && |y.entered| > 0 && y.entered[|y.entered| - 1] == c.entry
    ensures var us := Unsettled(y.line + [Slot(c, Sent)]);
      Distinct(us) && Below(us, |y.s.sends|) && Minus(y.entered, us) == y.wired + [c.entry]
  {
    hide Unsettled, Minus, Distinct;
    var us := Unsettled(y.line);
    UnsettledAppend(y.line, [Slot(c, Undecided)]);
    UnsettledAppend(y.line, [Slot(c, Sent)]);
    UnsettledOne(Slot(c, Undecided));
    UnsettledOne(Slot(c, Sent));
    assert us + [] == us && us + ([c.entry] + []) == us + [c.entry];
    DistinctParts(us, c.entry, []);
    var front := y.entered[..|y.entered| - 1];
    assert y.entered == front + [c.entry];
    LastAccepted(front, c.entry, us);
  }

  /** An entry that came last is accounted for once it is settled. */
  lemma LastAccepted(front: seq<Entry>, e: Entry, us: seq<Entry>)
    requires Distinct(front + [e]) && NoSend(us, e.send)
    ensures Minus(front + [e], us) == Minus(front + [e], us + [e]) + [e]
  {
    hide Minus, Distinct;
    assert front + ([e] + []) == front + [e] && front + [] == front;
    DistinctParts(front, e, []);
    MinusAppend(front, [e], us + [e]);
    MinusAppend(front, [e], us);
    MinusOne(e, us + [e]);
    MinusOne(e, us);
    assert e in us + [e];
    assert forall u <- us :: u in us + [e];
    MinusSame(front, us + [e], us);
    assert Minus(front, us) + [] == Minus(front, us);
  }

  lemma EntriesOne(x: Slot)
    ensures Entries([x]) == if x.request.Tracked? then [x.request.entry] else []
  {
    assert [x][1..] == [];
  }

  lemma RefuseKept(y: System)
    requires Possible(y, RefuseIt) && Kept(y)
    ensures |Do(y, RefuseIt).s.handlers| == 1 && StillQueued(Do(y, RefuseIt)) && Accounted(Do(y, RefuseIt))
  {
    hide Inv, Unsettled, Minus, Distinct, BatchInStep, Orderly;
    var z := Do(y, RefuseIt);
    var c := y.current.value;
    assert y.line + [] == y.line && z.line + [] == z.line;
    UnsettledAppend(y.line, [Slot(c, Undecided)]);
    UnsettledAppend(y.line, [Slot(c, Refused)]);
    UnsettledOne(Slot(c, Undecided));
    UnsettledOne(Slot(c, Refused));
    assert forall x <- y.line :: x in InLine(y);
    assert !y.batching ==> Slot(c, Undecided) in InLine(y);
  }

  /** The line without one of its places. */
  lemma UnsettledWithout(slots: seq<Slot>, i: nat, tail: seq<Slot>)
    requires i < |slots|
    ensures var a, b := Unsettled(slots[..i]), Unsettled(slots[i + 1..] + tail);
      && Unsettled(Without(slots, i) + tail) == a + b
      && Unsettled(slots + tail) == a + (Unsettled([slots[i]]) + b)
  {
    hide Unsettled;
    var p, q := slots[..i], slots[i + 1..] + tail;
    assert Without(slots, i) + tail == p + q;
    assert slots + tail == p + ([slots[i]] + q);
    UnsettledAppend(p, q);
    UnsettledAppend(p, [slots[i]] + q);
    UnsettledAppend([slots[i]], q);
  }

  lemma UnqueueKept(y: System, i: nat)
    requires Possible(y, Unqueue(i, false)) && Kept(y)
    ensures var z := Do(y, Unqueue(i, false)); |z.s.handlers| == 1 && StillQueued(z) && Accounted(z)
  {
    hide Inv, Unsettled, Minus, Distinct, BatchInStep, Orderly, LastOf, Without, Dropped;
    var z := Do(y, Unqueue(i, false));
    DoKeepsInv(y, Unqueue(i, false));
    var x := y.line[i];
    var e := x.request.entry;
    var tail := InLine(y)[|y.line|..];
    assert InLine(y) == y.line + tail && InLine(z) == Without(y.line, i) + tail;
    assert InLine(y)[i] == x && x in InLine(y);
    UnsettledWithout(y.line, i, tail);
    UnsettledOne(x);
    var a, b := Unsettled(y.line[..i]), Unsettled(y.line[i + 1..] + tail);
    DistinctParts(a, e, b);
    DroppedDistinct(y.entered, e.send);
    DroppedIn(y.entered, e.send);
    assert forall send :: NoSend(a + ([e] + b), send) <==> NoSend(a + b, send) && send != e.send by {
      Parted(a, e, b);
    }
    MinusDropped(y.entered, e, a + ([e] + b), a + b);
    OthersStayQueued(y, i);
    if y.current.Some? && !y.batching {
      LastStays(y, i, e);
    }
  }

  lemma Parted(a: seq<Entry>, e: Entry, b: seq<Entry>)
    ensures forall send :: NoSend(a + ([e] + b), send) <==> NoSend(a + b, send) && send != e.send
  {
    forall send ensures NoSend(a + ([e] + b), send) <==> NoSend(a + b, send) && send != e.send {
      assert forall x :: x in a + ([e] + b) <==> x in a + b || x == e;
    }
  }

  /** The other undecided or refused sends keep their records in the queue. */
  lemma OthersStayQueued(y: System, i: nat)
    requires Possible(y, Unqueue(i, false)) && Kept(y)
    ensures var z := Do(y, Unqueue(i, false)); |z.s.handlers| == 1 && StillQueued(z)
  {
    hide Inv, Unsettled, Minus, BatchInStep, Orderly, LastOf, Without, Dropped;
    DoKeepsInv(y, Unqueue(i, false));
    var z := Do(y, Unqueue(i, false));
    var x := y.line[i];
    var tail := InLine(y)[|y.line|..];
    assert InLine(y) == y.line + tail && InLine(z) == Without(y.line, i) + tail;
    assert InLine(y)[i] == x && x in InLine(y);
    var queue := y.s.handlers[0].queue;
    var m := LastOf(queue, x.request.rec).value;
    assert z.s.handlers[0].queue == Without(queue, m);
    UnsettledWithout(y.line, i, tail);
    UnsettledOne(x);
    var a, b := Unsettled(y.line[..i]), Unsettled(y.line[i + 1..] + tail);
    DistinctParts(a, x.request.entry, b);
    forall w <- InLine(z) | w.request.Tracked? && w.status != Sent
      ensures w.request.rec in z.s.handlers[0].queue && w.request.rec in z.s.entries
      ensures z.s.entries[w.request.rec] == w.request.entry
    {
      UnsettledIn(InLine(z), w.request.entry);
      WithoutAll(y.line, i, tail);
      assert w in InLine(y);
      WithoutKeeps(queue, m, w.request.rec);
    }
  }

  lemma WithoutAll<T>(s: seq<T>, i: nat, tail: seq<T>)
    requires i < |s|
    ensures forall x <- Without(s, i) + tail :: x in s + tail
  {
  }

  lemma WithoutKeeps(q: seq<Rec>, i: nat, r: Rec)
    requires i < |q| && r in q && r != q[i]
    ensures r in Without(q, i)
  {
    var k :| 0 <= k < |q| && q[k] == r;
    assert Without(q, i)[if k < i then k else k - 1] == r;
  }

  /** The undecided send stays the last one that entered. */
  lemma LastStays(y: System, i: nat, e: Entry)
    requires i < |y.line| && y.current.Some? && !y.batching && |y.s.handlers| == 1 && Accounted(y)
    requires y.line[i].request.Tracked? && y.line[i].status != Sent && y.line[i].request.entry == e
    ensures var es := Dropped(y.entered, e.send); |es| > 0 && es[|es| - 1] == y.current.value.entry
  {
    hide Unsettled, Minus, Dropped;
    var c := Slot(y.current.value, Undecided);
    var front := y.entered[..|y.entered| - 1];
    assert y.entered == front + [c.request.entry];
    UnsettledAppend(y.line, [c]);
    UnsettledOne(c);
    assert y.line[i] in y.line;
    UnsettledIn(y.line, e);
    var us := Unsettled(y.line);
    assert us + ([c.request.entry] + []) == us + [c.request.entry] && us + [] == us;
    DistinctParts(us, c.request.entry, []);
    DroppedAppend(front, [c.request.entry], e.send);
    DroppedNone([c.request.entry], e.send);
  }

  lemma UnqueueBatchKept(y: System, i: nat)
    requires Possible(y, Unqueue(i, true)) && Kept(y)
    ensures var z := Do(y, Unqueue(i, true)); |z.s.handlers| == 1 && StillQueued(z) && Accounted(z)
  {
    hide Inv, Unsettled, Minus, Distinct, BatchInStep, Orderly, LastOf, Without;
    var z := Do(y, Unqueue(i, true));
    DoKeepsInv(y, Unqueue(i, true));
    WithoutIn(y.s.handlers[0].batch, y.later[i].request.rec);
    assert InLine(z) == InLine(y);
    SameLine(y, z);
  }

  lemma RespondKept(y: System, i: nat, failed: bool)
    requires Possible(y, Respond(i, failed)) && Kept(y)
    ensures var z := Do(y, Respond(i, failed));
      |z.answers| > 0 && Settled(z.answers[|z.answers| - 1]) ==> |z.s.handlers| == 1 && StillQueued(z) && Accounted(z)
  {
    hide Settled, StillQueued, Accounted, Inv, Orderly, BatchInStep, Matching, Without, Fired;
    QueueKnown(y.s);
    RespondAccounted(y, i, failed);
    if Settled(Do(y, Respond(i, failed)).answers[|y.answers|]) {
      RespondStillQueued(y, i, failed);
    }
  }

  lemma RespondAccounted(y: System, i: nat, failed: bool)
    requires Possible(y, Respond(i, failed)) && Kept(y)
    ensures |Do(y, Respond(i, failed)).s.handlers| == 1 && Accounted(Do(y, Respond(i, failed)))
  {
    hide Inv, Unsettled, Minus, Distinct, Below, BatchInStep, StillQueued, Orderly, Matching, Without, Fired;
    var z := Do(y, Respond(i, failed));
    QueueKnown(y.s);
    var tail := InLine(y)[|y.line|..];
    assert InLine(y) == y.line + tail && InLine(z) == Without(y.line, i) + tail;
    AnsweredWasSettled(y.line, i, tail);
  }

  lemma RespondStillQueued(y: System, i: nat, failed: bool)
    requires Possible(y, Respond(i, failed)) && Kept(y)
    requires AllKnown(y.s) && Settled(Reacted(y, i, failed).answers[|y.answers|])
    ensures |Do(y, Respond(i, failed)).s.handlers| == 1 && StillQueued(Do(y, Respond(i, failed)))
  {
    hide Inv, Unsettled, Accounted, BatchInStep, Orderly, Matching, Without, Fired;
    var z := Do(y, Respond(i, failed));
    QueueKnown(y.s);
    var tail := InLine(y)[|y.line|..];
    assert InLine(y) == y.line + tail && InLine(z) == Without(y.line, i) + tail;
    var queue := y.s.handlers[0].queue;
    var m := Matching(queue, y.s.entries, y.line[i].request.ReqId(), y.random);
    WithoutAll(y.line, i, tail);
    forall w <- InLine(z) | w.request.Tracked? && w.status != Sent
      ensures w.request.rec in z.s.handlers[0].queue && w.request.rec in z.s.entries
      ensures z.s.entries[w.request.rec] == w.request.entry
    {
      assert w in InLine(y);
      if m.Some? {
        UnsettledIn(InLine(y), w.request.entry);
        WithoutKeeps(queue, m.value, w.request.rec);
      }
    }
  }

  lemma AnsweredWasSettled(slots: seq<Slot>, i: nat, tail: seq<Slot>)
    requires i < |slots| && slots[i].status == Sent
    ensures Unsettled(Without(slots, i) + tail) == Unsettled(slots + tail)
  {
    hide Unsettled;
    UnsettledWithout(slots, i, tail);
    UnsettledOne(slots[i]);
    assert [] + Unsettled(slots[i + 1..] + tail) == Unsettled(slots[i + 1..] + tail);
  }

  lemma CommitKept(y: System)
    requires Possible(y, CommitBatch) && Kept(y)
    ensures var z := Do(y, CommitBatch); |z.s.handlers| == 1 && StillQueued(z) && Accounted(z)
  {
    hide Inv, Unsettled, Minus, HeldBy, Recs, HoldAll, Entries;
    var z := Do(y, CommitBatch);
    QueueKnown(y.s);
    DoKeepsInv(y, CommitBatch);
    assert y.line + [] == y.line && z.line + [] == z.line && y.later + [] == y.later;
    assert forall x <- y.later :: x.status == Sent;
    NoneUnsettled(y.later);
    UnsettledAppend(y.line, y.later);
    assert Unsettled(y.line) + [] == Unsettled(y.line);
    var batch := y.s.handlers[0].batch;
    HeldEntries(y.s, y.later, batch);
    BatchDistinct(y);
    var us := Unsettled(y.line);
    var held := HeldBy(batch, y.s.entries);
    DistinctJoin(y.entered, held);
    MinusAppend(y.entered, held, us);
    MinusNothing(held, us) by { BatchSettled(y); }
    assert forall x <- y.line :: x in InLine(y);
  }

  lemma {:induction false} HeldEntries(s: State, slots: seq<Slot>, queue: seq<Rec>)
    requires queue == Recs(slots) && Known(queue, s.entries) && HoldAll(s, slots)
    ensures HeldBy(queue, s.entries) == Entries(slots)
  {
    if slots != [] {
      var rest := slots[1..];
      assert slots == [slots[0]] + rest;
      HoldsRest(s, slots[0], rest);
      if slots[0].request.Bare? {
        assert [] + Recs(rest) == Recs(rest) && [] + Entries(rest) == Entries(rest);
        HeldEntries(s, rest, queue);
      } else {
        assert queue[1..] == Recs(rest);
        assert forall r <- queue[1..] :: r in queue;
        HeldEntries(s, rest, queue[1..]);
      }
    }
  }

  /** What the batch's records hold: different requests of the past, none of which entered the queue. */
  lemma BatchDistinct(y: System)
    requires OneHandler(y.s) && Accounted(y)
    ensures var batch := y.s.handlers[0].batch;
      Known(batch, y.s.entries) &&
      var held := HeldBy(batch, y.s.entries);
      Distinct(held) && Below(held, |y.s.sends|) && forall e <- held :: NoSend(y.entered, e.send)
  {
    hide Inv, HeldBy, Unsettled, Minus;
    QueueKnown(y.s);
    var batch := y.s.handlers[0].batch;
    var held := HeldBy(batch, y.s.entries);
    HeldAt(batch, y.s.entries);
    forall e <- held ensures e.send < |y.s.sends| && NoSend(y.entered, e.send) {
      HeldIn(batch, y.s.entries, e);
      var r :| r in batch && y.s.entries[r] == e;
      WaitingOwn(y.s, r);
    }
    forall i, j | 0 <= i < j < |held| ensures held[i].send != held[j].send {
      BatchedOnce(y.s, i, j);
      assert batch[i] in batch && batch[j] in batch;
      WaitingOwn(y.s, batch[i]);
    }
  }

  lemma BatchedOnce(s: State, i: nat, j: nat)
    requires OneHandler(s) && i < j < |s.handlers[0].batch|
    ensures s.handlers[0].batch[i] != s.handlers[0].batch[j]
  {
    hide Inv, Times;
    var q := s.handlers[0].batch;
    var r := q[i];
    WaitsOnce(s, r);
    TimesWithout(q, i, r);
    TimesIn(Without(q, i), r);
    assert Without(q, i)[j - 1] == q[j];
  }

  /** No request of the batch is an unsettled one of the line, whose records are in the queue. */
  lemma BatchSettled(y: System)
    requires OneHandler(y.s) && StillQueued(y) && Possible(y, CommitBatch)
    ensures var batch := y.s.handlers[0].batch;
      Known(batch, y.s.entries) && forall e <- HeldBy(batch, y.s.entries) :: NoSend(Unsettled(y.line), e.send)
  {
    hide Inv, HeldBy, Unsettled;
    QueueKnown(y.s);
    var batch, queue := y.s.handlers[0].batch, y.s.handlers[0].queue;
    assert y.line + [] == y.line;
    forall e <- HeldBy(batch, y.s.entries), u <- Unsettled(y.line) ensures u.send != e.send {
      HeldIn(batch, y.s.entries, e);
      UnsettledIn(y.line, u);
      var r :| r in batch && y.s.entries[r] == e;
      var x :| x in y.line && x.request.Tracked? && x.status != Sent && x.request.entry == u;
      WaitingOwn(y.s, r);
      QueuedNotBatched(y.s, x.request.rec, r);
    }
  }

  lemma QueuedNotBatched(s: State, p: Rec, r: Rec)
    requires OneHandler(s) && p in s.handlers[0].queue && r in s.handlers[0].batch
    ensures p != r
  {
    hide Inv, Times;
    WaitsOnce(s, r);
    TimesIn(s.handlers[0].queue, r);
    TimesIn(s.handlers[0].batch, r);
  }

  lemma OtherKept(y: System, act: Act)
    requires act.SendBare? || act.StartBatch? || act.AbortBatch? || act.RecycleOne?
    requires Possible(y, act) && Kept(y)
    ensures var z := Do(y, act); |z.s.handlers| == 1 && StillQueued(z) && Accounted(z)
  {
    hide Inv, Unsettled, Minus, Distinct, BatchInStep, Orderly;
    var z := Do(y, act);
    DoKeepsInv(y, act);
    if act.SendBare? && act.accepted && !y.batching {
      var b := Slot(Bare(act.reqId), Sent);
      var tail := InLine(y)[|y.line|..];
      assert InLine(y) == y.line + tail && InLine(z) == y.line + [b] + tail;
      assert forall x <- InLine(z) :: x == b || x in InLine(y);
      UnsettledAppend(y.line, tail);
      UnsettledAppend(y.line + [b], tail);
      UnsettledAppend(y.line, [b]);
      UnsettledOne(b);
      assert Unsettled(y.line) + [] == Unsettled(y.line);
    } else {
      assert InLine(z) == InLine(y);
      SameLine(y, z);
    }
  }

  lemma DoKeepsKept(y: System, act: Act)
    requires Possible(y, act) && Kept(y)
    requires act.Respond? ==> var z := Do(y, act); |z.answers| > 0 && Settled(z.answers[|z.answers| - 1])
    ensures Kept(Do(y, act))
  {
    hide Inv, Orderly, BatchInStep, StillQueued, Accounted, Settled;
    DoKeepsInv(y, act);
    DoKeepsOrderly(y, act);
    DoKeepsBatch(y, act);
    match act
    case Send(_, _, _, _, _) => SendKept(y, act);
    case Accept => AcceptKept(y);
    case RefuseIt => RefuseKept(y);
    case Unqueue(i, inBatch) =>
      if inBatch {
        UnqueueBatchKept(y, i);
      } else {
        UnqueueKept(y, i);
      }
    case Respond(i, failed) => RespondKept(y, i, failed);
    case CommitBatch => CommitKept(y);
    case _ => OtherKept(y, act);
  }

  // Whole runs

  ghost predicate AllSettled(answers: seq<Answered>) {
    forall a <- answers :: Settled(a)
  }

  lemma AnswersGrow(y: System, act: Act)
    requires Possible(y, act) && OneHandler(y.s)
    ensures y.answers <= Do(y, act).answers && (act.Respond? ==> |Do(y, act).answers| == |y.answers| + 1)
  {
    hide Inv;
    QueueKnown(y.s);
    if !act.Respond? {
      AnswersKept(y, act);
    }
  }

  lemma {:induction false} RunGrows(y: System, acts: seq<Act>)
    requires RunAll(y, acts).Some?
    ensures y.answers <= RunAll(y, acts).value.answers
    decreases |acts|
  {
    hide Do, Possible, OneHandler;
    if acts != [] {
      AnswersGrow(y, acts[0]);
      RunGrows(Do(y, acts[0]), acts[1..]);
    }
  }

  lemma {:induction false} RunKeepsKept(y: System, acts: seq<Act>)
    requires Kept(y) && RunAll(y, acts).Some? && AllSettled(RunAll(y, acts).value.answers)
    ensures Kept(RunAll(y, acts).value)
    decreases |acts|
  {
    hide Kept, Do, Possible, OneHandler, Settled;
    if acts != [] {
      var z := Do(y, acts[0]);
      AnswersGrow(y, acts[0]);
      RunGrows(z, acts[1..]);
      var answers := RunAll(y, acts).value.answers;
      if acts[0].Respond? {
        assert answers[|z.answers| - 1] in answers && z.answers[|z.answers| - 1] == answers[|z.answers| - 1];
      }
      DoKeepsKept(y, acts[0]);
      RunKeepsKept(z, acts[1..]);
    }
  }

  lemma StartIsKept(random: bool)
    ensures Kept(Fresh(random))
  {
    hide Inv;
    StartIsExact(random);
    var none: seq<Slot> := [];
    assert none + none == none;
    NoSlots(Start(1));
  }

  /**
    Over every run, in order or in random order, in which no reply popped the record of a send that
    was undecided or refused: once none such is left in line, for each request id the tracked
    requests put on the wire are those whose records were popped, in the same order, followed by
    those the callback queue holds.
  */
  lemma AcceptedFirstInFirstOut(acts: seq<Act>, random: bool, id: nat)
    requires RunAll(Fresh(random), acts).Some?
    requires var y := RunAll(Fresh(random), acts).value; AllSettled(y.answers) && Unsettled(InLine(y)) == []
    ensures var y := RunAll(Fresh(random), acts).value;
      && |y.s.handlers| == 1 && Known(y.s.handlers[0].queue, y.s.entries)
      && OfId(y.wired, id) == OfId(Popped(y.answers), id) + OfId(HeldBy(y.s.handlers[0].queue, y.s.entries), id)
  {
    hide RunAll, Inv, Unsettled, Settled;
    StartIsKept(random);
    RunKeepsKept(Fresh(random), acts);
    FirstInFirstOut(acts, random, id);
    MinusNone(RunAll(Fresh(random), acts).value.entered);
  }
}
