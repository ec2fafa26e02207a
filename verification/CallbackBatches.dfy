/**
  Batches everOpen and closed by one thread while another sends (include/aclientw.cpp). A commit and
  an abort are two steps each, the handler's and the core's, and a send reads whether a batch is
  open before its record is queued, so it may be under way across all of them. Which queue a
  record stands in then no longer follows where its request is.
*/
module CallbackBatches {
  import opened Wrappers
  import opened Callbacks
  import Order = CallbackOrder

  /** A tracked request: its record, what the record was filled with, and the number of acts before it. */
  datatype Item = Item(rec: Rec, entry: Entry, at: nat)

  datatype Request = Bare(id: nat) | Tracked(item: Item) {
    function ReqId(): nat {
      if Bare? then id else item.entry.reqId
    }
  }

  /** A send, with the answer it got when it asked whether a batch is open. */
  datatype Attempt = Attempt(item: Item, inBatch: bool)

  /** A reply that was handled: what the callback queue was due to hold, and what the record popped held. */
  datatype Answered = Answered(queued: seq<Item>, request: Request, popped: Option<Entry>,
                               events: seq<Event>, failed: bool, done: nat)

  /**
    `queued` and `batched` are what the two queues are due to hold as long as every reply takes its
    own request's record; `wire` and `kept` are the requests on the wire and in the core's batch.
    `open` tells whether the core has a batch, `everOpen` whether it ever had one. `commits` and
    `aborts` count those whose first half is done. `sent` is the history of tracked sends, `done`
    the number of acts. `settled` holds while no abort came upon a send of the batch that was
    undecided, or refused and not yet taken out.
  */
  datatype System = System(
    random: bool,
    s: State,
    queued: seq<Item>,
    batched: seq<Item>,
    wire: seq<Request>,
    kept: seq<Request>,
    open: bool,
    everOpen: bool,
    commits: nat,
    aborts: nat,
    current: Option<Attempt>,
    refused: seq<Attempt>,
    sent: seq<Item>,
    answers: seq<Answered>,
    done: nat,
    settled: bool)

  datatype Act =
    | Send(reqId: nat, result: bool, discarded: bool, exception: bool, made: Rec, inBatch: bool)
    | Accept
    | RefuseIt
    | Unqueue(i: nat)
    | SendBare(reqId: nat, accepted: bool)
    | StartBatch
    | Flush
    | CommitCore
    | Clean
    | AbortCore
    | Respond(i: nat, failed: bool)
    | RecycleOne(i: nat)

  /**
    One tracked send at a time is between the queueing of its record and the core's decision, under
    the send lock. It may have found a batch open at any moment at which one was.
  */
  ghost predicate Possible(y: System, act: Act) {
    match act
    case Send(_, result, discarded, exception, made, inBatch) =>
      (result || discarded || exception) && made !in y.s.entries && y.current.None? && (inBatch ==> y.everOpen)
    case Accept => y.current.Some?
    case RefuseIt => y.current.Some?
    case Unqueue(i) => i < |y.refused|
    case CommitCore => y.commits > 0
    case AbortCore => y.aborts > 0
    case Respond(i, _) => i < |y.wire| && (!y.random ==> i == 0)
    case RecycleOne(i) => i < |y.s.held|
    case _ => true
  }

  function Recs(q: seq<Item>): (r: seq<Rec>)
    ensures |r| == |q|
  {
    seq(|q|, i requires 0 <= i < |q| => q[i].rec)
  }

  function FirstOfId(q: seq<Item>, id: nat): (k: Option<nat>)
    ensures k.Some? ==> k.value < |q| && q[k.value].entry.reqId == id
  {
    if q == [] then None
    else if q[0].entry.reqId == id then Some(0)
    else
      match FirstOfId(q[1..], id)
      case None => None
      case Some(k) => Some(k + 1)
  }

  /** The item whose record a reply takes. */
  function Find(q: seq<Item>, id: nat, random: bool): (k: Option<nat>)
    ensures k.Some? ==> k.value < |q| && q[k.value].entry.reqId == id
  {
    if random then FirstOfId(q, id) else if q != [] && q[0].entry.reqId == id then Some(0) else None
  }

  /** The reply to a request takes the request's own item, if that is what it finds. */
  function OwnTaken(q: seq<Item>, request: Request, random: bool): seq<Item> {
    var k := Find(q, request.ReqId(), random);
    if request.Tracked? && k.Some? && q[k.value].entry == request.item.entry then Without(q, k.value) else q
  }

  /** The last item with the record is taken out. */
  function TakenOut(q: seq<Item>, r: Rec): seq<Item> {
    match LastOf(Recs(q), r)
    case None => q
    case Some(i) => Without(q, i)
  }

  function Started(y: System, act: Act): Item
    requires act.Send?
  {
    Item(if y.s.pool != [] then y.s.pool[0] else act.made,
         Entry(|y.s.sends|, act.reqId, act.result, act.discarded, act.exception), y.done)
  }

  /** A request the core takes goes on the wire, or into its batch. */
  function Join(y: System, x: Request): System {
    if y.open then y.(kept := y.kept + [x]) else y.(wire := y.wire + [x])
  }

  ghost function Do(y: System, act: Act): System
    requires Possible(y, act) && Order.OneHandler(y.s)
  {
    Effect(y, act).(s := HandlerAfter(y, act), done := y.done + 1)
  }

  /** What the act does to the handler's queues, the pool and the records. */
  ghost function HandlerAfter(y: System, act: Act): State
    requires Possible(y, act) && Order.OneHandler(y.s)
  {
    ConservedIsKnown(y.s);
    match act
    case Send(reqId, result, discarded, exception, made, inBatch) =>
      Next(y.s, SendBegin(0, reqId, result, discarded, exception, inBatch, made))
    case Unqueue(i) => Refuse(y.s, Pending(0, y.refused[i].item.rec, y.refused[i].inBatch))
    case Flush => Next(y.s, Commit(0))
    case Clean => Next(y.s, Abort(0))
    case Respond(i, failed) => Next(y.s, Reply(0, y.wire[i].ReqId(), failed, y.random))
    case RecycleOne(i) => Next(y.s, Recycle(i))
    case _ => y.s
  }

  /** What the act does to the core, and to what the queues are due to hold. */
  ghost function Effect(y: System, act: Act): System
    requires Possible(y, act) && Order.OneHandler(y.s)
  {
    match act
    case Send(_, _, _, _, _, inBatch) =>
      var x := Started(y, act);
      y.(queued := if inBatch then y.queued else y.queued + [x],
         batched := if inBatch then y.batched + [x] else y.batched,
         current := Some(Attempt(x, inBatch)), sent := y.sent + [x])
    case Accept => Join(y, Tracked(y.current.value.item)).(current := None)
    case RefuseIt => y.(refused := y.refused + [y.current.value], current := None)
    case Unqueue(i) =>
      var p := y.refused[i];
      y.(refused := Without(y.refused, i),
         queued := if p.inBatch then y.queued else TakenOut(y.queued, p.item.rec),
         batched := if p.inBatch then TakenOut(y.batched, p.item.rec) else y.batched)
    case SendBare(reqId, accepted) => if accepted then Join(y, Bare(reqId)) else y
    case StartBatch => y.(open := true, everOpen := true)
    case Flush => y.(queued := y.queued + y.batched, batched := [], commits := y.commits + 1)
    case CommitCore => y.(wire := y.wire + y.kept, kept := [], open := false, commits := y.commits - 1)
    case Clean => y.(batched := [], aborts := y.aborts + 1, settled := y.settled && NoneOfBatch(y))
    case AbortCore => y.(kept := [], open := false, aborts := y.aborts - 1)
    case Respond(i, failed) =>
      y.(wire := Without(y.wire, i), queued := OwnTaken(y.queued, y.wire[i], y.random),
         answers := y.answers + [Reacted(y, i, failed)])
    case RecycleOne(_) => y
  }

  /** No send of the batch is undecided, or refused and not yet taken out. */
  ghost predicate NoneOfBatch(y: System) {
    (y.current.Some? ==> !y.current.value.inBatch) && forall p <- y.refused :: !p.inBatch
  }

  /** What the reply to a request on the wire finds, and what fires. */
  ghost function Reacted(y: System, i: nat, failed: bool): Answered
    requires i < |y.wire| && Order.OneHandler(y.s)
  {
    ConservedIsKnown(y.s);
    var queue := y.s.handlers[0].queue;
    var m := Matching(queue, y.s.entries, y.wire[i].ReqId(), y.random);
    var popped := if m.Some? then Some(y.s.entries[queue[m.value]]) else None;
    Answered(y.queued, y.wire[i], popped, if m.Some? then Fired(popped.value, failed) else [], failed, y.done)
  }

  ghost function RunAll(y: System, acts: seq<Act>): Option<System>
    decreases |acts|
  {
    if acts == [] then Some(y)
    else if Order.OneHandler(y.s) && Possible(y, acts[0]) then RunAll(Do(y, acts[0]), acts[1..])
    else None
  }

  function Fresh(random: bool): System {
    System(random, Start(1), [], [], [], [], false, false, 0, 0, None, [], [], [], 0, true)
  }

  // Right and wrong replies

  predicate Right(a: Answered) {
    Order.Reaches(if a.request.Tracked? then Some(a.request.item.entry) else None, a.popped, a.events, a.failed)
  }

  /** The record a reply was due to find is its own request's, or there was none to find for one without callbacks. */
  predicate Unobstructed(a: Answered, random: bool) {
    var k := Find(a.queued, a.request.ReqId(), random);
    if a.request.Bare? then k.None? else k.Some? && a.queued[k.value].entry == a.request.item.entry
  }

  predicate AllRight(answers: seq<Answered>) {
    forall a <- answers :: Right(a)
  }

  predicate AllUnobstructed(answers: seq<Answered>, random: bool) {
    forall a <- answers :: Unobstructed(a, random)
  }

  ghost predicate HoldAll(s: State, q: seq<Item>) {
    forall x <- q :: x.rec in s.entries && s.entries[x.rec] == x.entry
  }

  /** The queues hold what they are due to. */
  ghost predicate InStep(y: System) {
    && |y.s.handlers| == 1
    && y.s.handlers[0] == Handler(Recs(y.queued), Recs(y.batched))
    && HoldAll(y.s, y.queued) && HoldAll(y.s, y.batched)
  }

  ghost predicate Exact(y: System) {
    && Order.OneHandler(y.s)
    && (if AllUnobstructed(y.answers, y.random) then InStep(y) && AllRight(y.answers) else !AllRight(y.answers))
  }

  lemma RecsJoin(a: seq<Item>, b: seq<Item>)
    ensures Recs(a + b) == Recs(a) + Recs(b)
  {
  }

  lemma RecsWithout(q: seq<Item>, i: nat)
    requires i < |q|
    ensures Recs(Without(q, i)) == Without(Recs(q), i)
  {
  }

  /** Records that keep waiting keep what they hold. */
  lemma HoldsStill(s: State, t: State, q: seq<Item>)
    requires HoldAll(s, q)
    requires forall r <- Recs(q) :: r in s.entries ==> r in t.entries && t.entries[r] == s.entries[r]
    ensures HoldAll(t, q)
  {
    forall x <- q ensures x.rec in t.entries && t.entries[x.rec] == x.entry {
      var i :| 0 <= i < |q| && q[i] == x;
      assert Recs(q)[i] == x.rec;
    }
  }

  /** Searching the queue is searching what it holds. */
  lemma {:induction false} FirstIsFirst(s: State, q: seq<Item>, id: nat)
    requires HoldAll(s, q)
    ensures Known(Recs(q), s.entries) && FirstOf(Recs(q), s.entries, id) == FirstOfId(q, id)
  {
    forall r <- Recs(q) ensures r in s.entries {
      var i :| 0 <= i < |Recs(q)| && Recs(q)[i] == r;
      assert q[i] in q;
    }
    if q != [] {
      assert Recs(q)[1..] == Recs(q[1..]) && q[0] in q;
      FirstIsFirst(s, q[1..], id);
    }
  }

  lemma FindIsMatching(s: State, q: seq<Item>, id: nat, random: bool)
    requires HoldAll(s, q)
    ensures Known(Recs(q), s.entries) && Matching(Recs(q), s.entries, id, random) == Find(q, id, random)
  {
    hide FirstOf, FirstOfId;
    FirstIsFirst(s, q, id);
    if q != [] {
      assert q[0] in q && Recs(q)[0] == q[0].rec;
    }
  }

  lemma QueuesKnown(s: State)
    requires Order.OneHandler(s)
    ensures |s.handlers| == 1 && AllKnown(s)
  {
    hide Inv;
    Order.InvConserves(s);
    ConservedIsKnown(s);
  }

  lemma RefusedKept(s: State, p: Pending)
    requires Order.OneHandler(s) && p.h == 0
    ensures Order.OneHandler(Refuse(s, p))
  {
    hide Inv, Refuse;
    Order.RefusedInv(s, p);
  }

  /** The handler's own invariant is kept by every act. */
  lemma DoKeepsInv(y: System, act: Act)
    requires Possible(y, act) && Order.OneHandler(y.s)
    ensures Order.OneHandler(Do(y, act).s)
  {
    hide Order.OneHandler, Refuse, Next, Effect;
    QueuesKnown(y.s);
    match act
    case Send(reqId, result, discarded, exception, made, inBatch) =>
      Order.HandlerKept(y.s, SendBegin(0, reqId, result, discarded, exception, inBatch, made));
    case Unqueue(i) => RefusedKept(y.s, Pending(0, y.refused[i].item.rec, y.refused[i].inBatch));
    case Flush => Order.HandlerKept(y.s, Commit(0));
    case Clean => Order.HandlerKept(y.s, Abort(0));
    case Respond(i, failed) => Order.HandlerKept(y.s, Reply(0, y.wire[i].ReqId(), failed, y.random));
    case RecycleOne(i) => Order.HandlerKept(y.s, Recycle(i));
    case _ =>
  }

  lemma AnswersAfter(y: System, act: Act)
    requires Possible(y, act) && Order.OneHandler(y.s)
    ensures Do(y, act).random == y.random
    ensures Do(y, act).answers == y.answers + if act.Respond? then [Reacted(y, act.i, act.failed)] else []
  {
    hide HandlerAfter, Reacted, OwnTaken, TakenOut, NoneOfBatch, Started, Without, Order.OneHandler;
    match act
    case Respond(_, _) =>
    case _ =>
      assert Effect(y, act).answers == y.answers;
  }

  lemma SendInStep(y: System, act: Act)
    requires act.Send? && Possible(y, act) && Order.OneHandler(y.s) && InStep(y)
    ensures InStep(Do(y, act))
  {
    hide Inv, HoldAll, Recs;
    var z := Do(y, act);
    var x := Started(y, act);
    Order.PoolIsNotQueued(y.s, x.rec, act.made);
    RecsJoin(y.queued, [x]);
    RecsJoin(y.batched, [x]);
    OneItem(z.s, x);
    HoldsStill(y.s, z.s, y.queued);
    HoldsStill(y.s, z.s, y.batched);
    HoldsJoin(z.s, y.queued, [x]);
    HoldsJoin(z.s, y.batched, [x]);
  }

  lemma OneItem(s: State, x: Item)
    ensures Recs([x]) == [x.rec] && Recs([]) == []
    ensures HoldAll(s, [x]) <==> x.rec in s.entries && s.entries[x.rec] == x.entry
  {
    assert x in [x];
  }

  lemma HoldsJoin(s: State, a: seq<Item>, b: seq<Item>)
    ensures HoldAll(s, a + b) <==> HoldAll(s, a) && HoldAll(s, b)
  {
    assert forall x <- a :: x in a + b;
    assert forall x <- b :: x in a + b;
  }

  lemma UnqueueInStep(y: System, act: Act)
    requires act.Unqueue? && Possible(y, act) && Order.OneHandler(y.s) && InStep(y)
    ensures InStep(Do(y, act))
  {
    hide Inv, Recs, LastOf, Without, HoldAll, Order.OneHandler;
    var z := Do(y, act);
    var p := y.refused[act.i];
    var q := if p.inBatch then y.batched else y.queued;
    var i := LastOf(Recs(q), p.item.rec);
    if i.Some? {
      RecsWithout(q, i.value);
      HoldsWithout(y.s, q, i.value);
    }
    SameEntries(y.s, z.s, z.queued);
    SameEntries(y.s, z.s, z.batched);
  }

  lemma SameEntries(s: State, t: State, q: seq<Item>)
    requires t.entries == s.entries
    ensures HoldAll(t, q) <==> HoldAll(s, q)
  {
  }

  lemma HoldsWithout(s: State, q: seq<Item>, i: nat)
    requires i < |q| && HoldAll(s, q)
    ensures HoldAll(s, Without(q, i))
  {
    assert forall x <- Without(q, i) :: x in q;
  }

  lemma OtherInStep(y: System, act: Act)
    requires !act.Send? && !act.Unqueue? && !act.Respond?
    requires Possible(y, act) && Order.OneHandler(y.s) && InStep(y)
    ensures InStep(Do(y, act))
  {
    hide Inv, Recs, HoldAll;
    var z := Do(y, act);
    RecsJoin(y.queued, y.batched);
    HoldsJoin(y.s, y.queued, y.batched);
    NoItems(z.s);
    SameEntries(y.s, z.s, z.queued);
    SameEntries(y.s, z.s, z.batched);
  }

  lemma NoItems(s: State)
    ensures Recs([]) == [] && HoldAll(s, [])
  {
  }

  /** A reply is right if and only if it is unobstructed, and then the queues stay in step. */
  lemma RightExactly(y: System, i: nat, failed: bool)
    requires Order.OneHandler(y.s) && InStep(y) && Possible(y, Respond(i, failed))
    ensures Right(Reacted(y, i, failed)) <==> Unobstructed(Reacted(y, i, failed), y.random)
    ensures Unobstructed(Reacted(y, i, failed), y.random) ==> InStep(Do(y, Respond(i, failed)))
  {
    hide Inv, Recs, HoldAll, Fired, Find, Matching, Without;
    QueuesKnown(y.s);
    var z := Do(y, Respond(i, failed));
    var id := y.wire[i].ReqId();
    FindIsMatching(y.s, y.queued, id, y.random);
    var k := Find(y.queued, id, y.random);
    if k.Some? {
      ItemAt(y.s, y.queued, k.value);
      RecsWithout(y.queued, k.value);
      HoldsWithout(y.s, y.queued, k.value);
    }
    SameEntries(y.s, z.s, z.queued);
    SameEntries(y.s, z.s, z.batched);
  }

  lemma ItemAt(s: State, q: seq<Item>, i: nat)
    requires HoldAll(s, q) && i < |q|
    ensures Recs(q)[i] == q[i].rec && q[i].rec in s.entries && s.entries[q[i].rec] == q[i].entry
  {
    assert q[i] in q;
  }

  lemma OneMoreAnswer(answers: seq<Answered>, a: Answered, random: bool)
    ensures AllRight(answers + [a]) <==> AllRight(answers) && Right(a)
    ensures AllUnobstructed(answers + [a], random) <==> AllUnobstructed(answers, random) && Unobstructed(a, random)
  {
    hide Right, Unobstructed;
    assert a in answers + [a];
    assert forall x <- answers :: x in answers + [a];
  }

  lemma DoKeepsExact(y: System, act: Act)
    requires Possible(y, act) && Exact(y)
    ensures Exact(Do(y, act))
  {
    hide InStep, AllRight, AllUnobstructed, Right, Unobstructed, Inv, Reacted, Do;
    DoKeepsInv(y, act);
    AnswersAfter(y, act);
    if act.Respond? {
      OneMoreAnswer(y.answers, Reacted(y, act.i, act.failed), y.random);
      if AllUnobstructed(y.answers, y.random) {
        RightExactly(y, act.i, act.failed);
      }
    } else {
      assert y.answers + [] == y.answers;
      if AllUnobstructed(y.answers, y.random) {
        match act
        case Send(_, _, _, _, _, _) => SendInStep(y, act);
        case Unqueue(_) => UnqueueInStep(y, act);
        case _ => OtherInStep(y, act);
      }
    }
  }

  lemma {:induction false} RunKeepsExact(y: System, acts: seq<Act>)
    requires Exact(y) && RunAll(y, acts).Some?
    ensures Exact(RunAll(y, acts).value) && RunAll(y, acts).value.random == y.random
    decreases |acts|
  {
    hide AllUnobstructed, InStep, AllRight, Do, Possible;
    if acts != [] {
      DoKeepsExact(y, acts[0]);
      AnswersAfter(y, acts[0]);
      RunKeepsExact(Do(y, acts[0]), acts[1..]);
    }
  }

  lemma StartIsExact(random: bool)
    ensures Exact(Fresh(random))
  {
    hide Inv;
    Order.StartIsExact(random);
    NoItems(Start(1));
  }

  /**
    Over every run, in order or in random order, with sends under way across the halves of commits
    and aborts: all replies were right if and only if each was due to find its own request's record.
  */
  lemma RightIfAndOnlyIfUnobstructed(acts: seq<Act>, random: bool)
    requires RunAll(Fresh(random), acts).Some?
    ensures var y := RunAll(Fresh(random), acts).value;
      && (AllRight(y.answers) <==> AllUnobstructed(y.answers, random))
      && (AllRight(y.answers) ==> InStep(y))
  {
    hide InStep, RunAll;
    StartIsExact(random);
    RunKeepsExact(Fresh(random), acts);
  }
}
