/**
  Where the record of a send is that was under way when a batch ended (include/aclientw.cpp), told
  from the acts alone, and when every reply in random order finds its own request's record.
*/
module CallbackFlushes {
  import opened Wrappers
  import opened Callbacks
  import opened CallbackBatches

  /** The half of a commit, or of an abort, that concerns the handler's queue of the batch. */
  datatype Half = Flushed | Cleaned

  function HalfOf(act: Act): Option<Half> {
    if act.Flush? then Some(Flushed) else if act.Clean? then Some(Cleaned) else None
  }

  /** What came first for a record in the batch's queue. */
  function FirstHalf(acts: seq<Act>): Option<Half> {
    if acts == [] then None else if HalfOf(acts[0]).Some? then HalfOf(acts[0]) else FirstHalf(acts[1..])
  }

  datatype Stage = InQueue | InBatch | Dropped

  /** Where the record of the send at `k` is due to be before act `n`, unless a reply or a refusal took it out. */
  function StageOf(acts: seq<Act>, k: nat, n: nat): Stage
    requires k < n <= |acts| && acts[k].Send?
  {
    if !acts[k].inBatch then InQueue
    else
      match FirstHalf(acts[k + 1..n])
      case None => InBatch
      case Some(Flushed) => InQueue
      case Some(Cleaned) => Dropped
  }

  /** The record of the send at `k` had reached the callback queue before act `n`. */
  predicate Arrived(acts: seq<Act>, k: nat, n: nat) {
    k < n <= |acts| && acts[k].Send? && StageOf(acts, k, n) == InQueue
  }

  predicate IsSend(act: Act) {
    act.Send? || act.SendBare?
  }

  /** No request has the id of one with callbacks. */
  predicate IdsDistinct(acts: seq<Act>) {
    forall i, j :: 0 <= i < |acts| && 0 <= j < |acts| && i != j && acts[i].Send? && IsSend(acts[j]) ==>
      acts[i].reqId != acts[j].reqId
  }

  lemma {:induction false} FirstHalfAppend(acts: seq<Act>, act: Act)
    ensures FirstHalf(acts + [act]) == if FirstHalf(acts).Some? then FirstHalf(acts) else HalfOf(act)
  {
    if acts == [] {
      assert [act][1..] == [];
    } else {
      assert (acts + [act])[1..] == acts[1..] + [act];
      FirstHalfAppend(acts[1..], act);
    }
  }

  lemma StageGrows(past: seq<Act>, act: Act, k: nat)
    requires k < |past| && past[k].Send?
    ensures StageOf(past + [act], k, |past| + 1)
         == if StageOf(past, k, |past|) != InBatch then StageOf(past, k, |past|)
            else if act.Flush? then InQueue else if act.Clean? then Dropped else InBatch
    ensures forall n :: k < n <= |past| ==> StageOf(past + [act], k, n) == StageOf(past, k, n)
  {
    hide FirstHalf;
    var all := past + [act];
    assert all[k + 1..|past| + 1] == past[k + 1..|past|] + [act];
    FirstHalfAppend(past[k + 1..|past|], act);
    forall n | k < n <= |past| ensures StageOf(all, k, n) == StageOf(past, k, n) {
      assert all[k + 1..n] == past[k + 1..n];
    }
  }

  lemma StageAtFirst(past: seq<Act>, act: Act)
    requires act.Send?
    ensures StageOf(past + [act], |past|, |past| + 1) == if act.inBatch then InBatch else InQueue
  {
    assert (past + [act])[|past| + 1..|past| + 1] == [];
  }

  // What is known of every state

  /** The item was made by the send it names. */
  ghost predicate MadeBy(x: Item, past: seq<Act>) {
    x.at < |past| && past[x.at].Send? && x.entry.reqId == past[x.at].reqId
  }

  /** The history of sends, one item for each. */
  ghost predicate Recorded(sent: seq<Item>, past: seq<Act>) {
    && (forall x <- sent :: MadeBy(x, past))
    && (forall x <- sent, z <- sent :: x.at == z.at ==> x == z)
  }

  /** The request is one that was sent. */
  ghost predicate Sent(r: Request, sent: seq<Item>, past: seq<Act>) {
    if r.Tracked? then r.item in sent else exists j :: 0 <= j < |past| && past[j].SendBare? && past[j].reqId == r.id
  }

  ghost predicate AllSent(rs: seq<Request>, sent: seq<Item>, past: seq<Act>) {
    forall r <- rs :: Sent(r, sent, past)
  }

  ghost predicate AllAt(q: seq<Item>, sent: seq<Item>, past: seq<Act>, n: nat, stage: Stage) {
    forall x <- q :: x in sent && x.at < n <= |past| && past[x.at].Send? && StageOf(past, x.at, n) == stage
  }

  /** The attempts under way or refused. */
  ghost function Attempts(y: System): seq<Attempt> {
    y.refused + if y.current.Some? then [y.current.value] else []
  }

  ghost predicate AttemptSent(p: Attempt, sent: seq<Item>, past: seq<Act>) {
    p.item in sent && MadeBy(p.item, past) && p.inBatch == past[p.item.at].inBatch
  }

  ghost predicate AnswerTold(a: Answered, sent: seq<Item>, past: seq<Act>) {
    a.done <= |past| && Sent(a.request, sent, past) && AllAt(a.queued, sent, past, a.done, InQueue)
  }

  ghost predicate HistoryTold(y: System, past: seq<Act>) {
    y.done == |past| && Recorded(y.sent, past)
  }

  ghost predicate QueuesTold(y: System, past: seq<Act>) {
    AllAt(y.queued, y.sent, past, |past|, InQueue) && AllAt(y.batched, y.sent, past, |past|, InBatch)
  }

  ghost predicate RequestsTold(y: System, past: seq<Act>) {
    AllSent(y.wire, y.sent, past) && AllSent(y.kept, y.sent, past)
  }

  ghost predicate AttemptsTold(y: System, past: seq<Act>) {
    forall p <- Attempts(y) :: AttemptSent(p, y.sent, past)
  }

  ghost predicate AnswersTold(y: System, past: seq<Act>) {
    forall a <- y.answers :: AnswerTold(a, y.sent, past)
  }

  /** What the acts so far tell of the items in a state. */
  ghost predicate Told(y: System, past: seq<Act>) {
    && HistoryTold(y, past) && QueuesTold(y, past) && RequestsTold(y, past)
    && AttemptsTold(y, past) && AnswersTold(y, past)
  }

  lemma RecordedGrows(sent: seq<Item>, past: seq<Act>, act: Act)
    requires Recorded(sent, past)
    ensures Recorded(sent, past + [act])
  {
  }

  lemma SentGrows(rs: seq<Request>, sent: seq<Item>, past: seq<Act>, act: Act, more: seq<Item>)
    requires AllSent(rs, sent, past)
    ensures AllSent(rs, sent + more, past + [act])
  {
    forall r <- rs ensures Sent(r, sent + more, past + [act]) {
      assert Sent(r, sent, past);
      if r.Bare? {
        var j :| 0 <= j < |past| && past[j].SendBare? && past[j].reqId == r.id;
        assert (past + [act])[j] == past[j];
      }
    }
  }

  lemma AtGrows(q: seq<Item>, sent: seq<Item>, past: seq<Act>, n: nat, stage: Stage, act: Act, more: seq<Item>)
    requires AllAt(q, sent, past, n, stage)
    ensures AllAt(q, sent + more, past + [act], n, stage)
    ensures n == |past| ==> AllAt(q, sent + more, past + [act], n + 1,
                                  if stage != InBatch then stage else if act.Flush? then InQueue
                                  else if act.Clean? then Dropped else InBatch)
  {
    hide StageOf;
    forall x <- q ensures StageOf(past + [act], x.at, n) == stage {
      StageGrows(past, act, x.at);
    }
    if n == |past| {
      forall x <- q ensures StageOf(past + [act], x.at, n + 1)
          == if stage != InBatch then stage else if act.Flush? then InQueue else if act.Clean? then Dropped else InBatch {
        StageGrows(past, act, x.at);
      }
    }
  }

  lemma AnswersGrow(answers: seq<Answered>, sent: seq<Item>, past: seq<Act>, act: Act, more: seq<Item>)
    requires forall a <- answers :: AnswerTold(a, sent, past)
    ensures forall a <- answers :: AnswerTold(a, sent + more, past + [act])
  {
    hide AllAt, Sent;
    forall a <- answers ensures AnswerTold(a, sent + more, past + [act]) {
      assert AnswerTold(a, sent, past);
      AtGrows(a.queued, sent, past, a.done, InQueue, act, more);
      OneSentGrows(a.request, sent, past, act, more);
    }
  }

  lemma OneSentGrows(r: Request, sent: seq<Item>, past: seq<Act>, act: Act, more: seq<Item>)
    requires Sent(r, sent, past)
    ensures Sent(r, sent + more, past + [act])
  {
    assert r in [r];
    SentGrows([r], sent, past, act, more);
  }

  lemma HistoryKept(y: System, past: seq<Act>, act: Act)
    requires Possible(y, act) && Order.OneHandler(y.s) && HistoryTold(y, past)
    ensures HistoryTold(Do(y, act), past + [act])
    ensures Do(y, act).sent == y.sent + if act.Send? then [Started(y, act)] else []
  {
    hide HandlerAfter, Reacted, Order.OneHandler, TakenOut, OwnTaken, NoneOfBatch;
    if act.Send? {
      var x := Started(y, act);
      assert forall z <- y.sent + [x] :: z == x || z in y.sent;
    } else {
      assert y.sent + [] == y.sent;
    }
  }

  lemma QueuesKept(y: System, past: seq<Act>, act: Act)
    requires Possible(y, act) && Order.OneHandler(y.s) && HistoryTold(y, past) && QueuesTold(y, past)
    ensures QueuesTold(Do(y, act), past + [act])
  {
    hide HandlerAfter, Reacted, Order.OneHandler, TakenOut, OwnTaken, NoneOfBatch, AllAt, Recorded;
    var z := Do(y, act);
    var more := if act.Send? then [Started(y, act)] else [];
    HistoryKept(y, past, act);
    AtGrows(y.queued, y.sent, past, |past|, InQueue, act, more);
    AtGrows(y.batched, y.sent, past, |past|, InBatch, act, more);
    match act
    case Send(_, _, _, _, _, inBatch) =>
      var x := Started(y, act);
      FirstAt(x, z.sent, past, act);
      AtJoin(y.queued, [x], z.sent, past + [act], |past| + 1, InQueue);
      AtJoin(y.batched, [x], z.sent, past + [act], |past| + 1, InBatch);
    case Flush =>
      AtJoin(y.queued, y.batched, z.sent, past + [act], |past| + 1, InQueue);
      AtNone(z.sent, past + [act], |past| + 1, InBatch);
    case Clean => AtNone(z.sent, past + [act], |past| + 1, InBatch);
    case Unqueue(i) =>
      TakenOutIn(y.queued, y.refused[i].item.rec);
      AtPart(y.queued, z.queued, z.sent, past + [act], |past| + 1, InQueue);
      TakenOutIn(y.batched, y.refused[i].item.rec);
      AtPart(y.batched, z.batched, z.sent, past + [act], |past| + 1, InBatch);
    case Respond(i, _) =>
      OwnTakenIn(y.queued, y.wire[i], y.random);
      AtPart(y.queued, z.queued, z.sent, past + [act], |past| + 1, InQueue);
    case _ =>
  }

  lemma FirstAt(x: Item, sent: seq<Item>, past: seq<Act>, act: Act)
    requires act.Send? && x.at == |past| && x in sent
    ensures AllAt([x], sent, past + [act], |past| + 1, if act.inBatch then InBatch else InQueue)
  {
    hide StageOf;
    StageAtFirst(past, act);
  }

  lemma AtJoin(a: seq<Item>, b: seq<Item>, sent: seq<Item>, past: seq<Act>, n: nat, stage: Stage)
    ensures AllAt(a + b, sent, past, n, stage) <==> AllAt(a, sent, past, n, stage) && AllAt(b, sent, past, n, stage)
  {
    hide StageOf;
    assert forall x <- a :: x in a + b;
    assert forall x <- b :: x in a + b;
  }

  lemma AtNone(sent: seq<Item>, past: seq<Act>, n: nat, stage: Stage)
    ensures AllAt([], sent, past, n, stage)
  {
  }

  lemma AtPart(a: seq<Item>, b: seq<Item>, sent: seq<Item>, past: seq<Act>, n: nat, stage: Stage)
    requires AllAt(a, sent, past, n, stage) && forall x <- b :: x in a
    ensures AllAt(b, sent, past, n, stage)
  {
    hide StageOf;
  }

  lemma TakenOutIn(q: seq<Item>, r: Rec)
    ensures forall x <- TakenOut(q, r) :: x in q
  {
    hide LastOf, Recs;
  }

  lemma OwnTakenIn(q: seq<Item>, request: Request, random: bool)
    ensures forall x <- OwnTaken(q, request, random) :: x in q
  {
    hide Find;
  }

  lemma RequestsKept(y: System, past: seq<Act>, act: Act)
    requires Possible(y, act) && Order.OneHandler(y.s) && HistoryTold(y, past)
    requires RequestsTold(y, past) && AttemptsTold(y, past)
    ensures RequestsTold(Do(y, act), past + [act])
  {
    hide HandlerAfter, Reacted, Order.OneHandler, TakenOut, OwnTaken, NoneOfBatch, Recorded, Sent;
    var z := Do(y, act);
    var more := if act.Send? then [Started(y, act)] else [];
    HistoryKept(y, past, act);
    SentGrows(y.wire, y.sent, past, act, more);
    SentGrows(y.kept, y.sent, past, act, more);
    if act.SendBare? {
      assert (past + [act])[|past|] == act;
      BareSent(past, act, z.sent);
    } else if act.Accept? {
      assert y.current.value in Attempts(y);
      TrackedSent(y.current.value.item, z.sent, past + [act]);
    }
  }

  lemma BareSent(past: seq<Act>, act: Act, sent: seq<Item>)
    requires act.SendBare?
    ensures Sent(Bare(act.reqId), sent, past + [act])
  {
    assert (past + [act])[|past|] == act;
  }

  lemma TrackedSent(x: Item, sent: seq<Item>, past: seq<Act>)
    ensures Sent(Tracked(x), sent, past) <==> x in sent
  {
  }

  lemma AttemptsKept(y: System, past: seq<Act>, act: Act)
    requires Possible(y, act) && Order.OneHandler(y.s) && HistoryTold(y, past) && AttemptsTold(y, past)
    ensures AttemptsTold(Do(y, act), past + [act])
  {
    hide HandlerAfter, Reacted, Order.OneHandler, TakenOut, OwnTaken, NoneOfBatch, Recorded;
    var z := Do(y, act);
    HistoryKept(y, past, act);
    forall p <- Attempts(z) ensures AttemptSent(p, z.sent, past + [act]) {
      assert p in Attempts(y) || (act.Send? && p == Attempt(Started(y, act), act.inBatch));
    }
  }

  lemma AnswersKept(y: System, past: seq<Act>, act: Act)
    requires Possible(y, act) && Order.OneHandler(y.s) && Told(y, past)
    ensures AnswersTold(Do(y, act), past + [act])
  {
    hide Do, AllAt, Sent, Order.OneHandler, Recorded;
    var z := Do(y, act);
    var more := if act.Send? then [Started(y, act)] else [];
    HistoryKept(y, past, act);
    AnswersAfter(y, act);
    AnswersGrow(y.answers, y.sent, past, act, more);
    if act.Respond? {
      var a := Reacted(y, act.i, act.failed);
      AtGrows(y.queued, y.sent, past, |past|, InQueue, act, more);
      assert y.wire[act.i] in y.wire;
      OneSentGrows(y.wire[act.i], y.sent, past, act, more);
      assert AnswerTold(a, z.sent, past + [act]);
    }
  }

  lemma DoKeepsTold(y: System, past: seq<Act>, act: Act)
    requires Possible(y, act) && Order.OneHandler(y.s) && Told(y, past)
    ensures Told(Do(y, act), past + [act])
  {
    hide HistoryTold, QueuesTold, RequestsTold, AttemptsTold, AnswersTold, Do;
    HistoryKept(y, past, act);
    QueuesKept(y, past, act);
    RequestsKept(y, past, act);
    AttemptsKept(y, past, act);
    AnswersKept(y, past, act);
  }

  // Where the record of an outstanding request is

  function Count(rs: seq<Request>, x: Item): nat {
    if rs == [] then 0 else (if rs[0] == Tracked(x) then 1 else 0) + Count(rs[1..], x)
  }

  function CountRefused(ps: seq<Attempt>, x: Item): nat {
    if ps == [] then 0 else (if ps[0].item == x then 1 else 0) + CountRefused(ps[1..], x)
  }

  /** How often an item is on the wire, in the core's batch, undecided, or refused but not yet taken out. */
  ghost function Outstanding(y: System, x: Item): nat {
    Count(y.wire, x) + Count(y.kept, x) + CountRefused(y.refused, x)
    + if y.current.Some? && y.current.value.item == x then 1 else 0
  }

  /** The record of the item stands where the acts say, unless an abort dropped it. */
  ghost predicate Placed(y: System, past: seq<Act>, x: Item) {
    && MadeBy(x, past)
    && match StageOf(past, x.at, |past|)
       case InQueue => x in y.queued
       case InBatch => x in y.batched
       case Dropped => true
  }

  ghost predicate NotDropped(p: Attempt, past: seq<Act>) {
    MadeBy(p.item, past) && StageOf(past, p.item.at, |past|) != Dropped
  }

  ghost predicate AllPlaced(y: System, past: seq<Act>) {
    forall x: Item :: Outstanding(y, x) > 0 ==> Outstanding(y, x) == 1 && Placed(y, past, x)
  }

  ghost predicate Full(y: System, past: seq<Act>) {
    AllPlaced(y, past) && forall p <- Attempts(y) :: NotDropped(p, past)
  }

  lemma {:induction false} CountAppend(a: seq<Request>, b: seq<Request>, x: Item)
    ensures Count(a + b, x) == Count(a, x) + Count(b, x)
  {
    if a == [] {
      assert a + b == b;
    } else {
      assert (a + b)[1..] == a[1..] + b;
      CountAppend(a[1..], b, x);
    }
  }

  lemma CountOne(r: Request, x: Item)
    ensures Count([r], x) == (if r == Tracked(x) then 1 else 0) && Count([], x) == 0
  {
    assert [r][1..] == [];
  }

  lemma CountWithout(rs: seq<Request>, i: nat, x: Item)
    requires i < |rs|
    ensures Count(rs, x) == Count(Without(rs, i), x) + if rs[i] == Tracked(x) then 1 else 0
  {
    assert rs == rs[..i] + [rs[i]] + rs[i + 1..];
    CountAppend(rs[..i] + [rs[i]], rs[i + 1..], x);
    CountAppend(rs[..i], [rs[i]], x);
    CountAppend(rs[..i], rs[i + 1..], x);
    CountOne(rs[i], x);
  }

  lemma {:induction false} CountIn(rs: seq<Request>, x: Item)
    ensures Count(rs, x) > 0 <==> Tracked(x) in rs
  {
    if rs != [] {
      CountIn(rs[1..], x);
    }
  }

  lemma {:induction false} RefusedAppend(a: seq<Attempt>, b: seq<Attempt>, x: Item)
    ensures CountRefused(a + b, x) == CountRefused(a, x) + CountRefused(b, x)
  {
    if a == [] {
      assert a + b == b;
    } else {
      assert (a + b)[1..] == a[1..] + b;
      RefusedAppend(a[1..], b, x);
    }
  }

  lemma RefusedOne(p: Attempt, x: Item)
    ensures CountRefused([p], x) == if p.item == x then 1 else 0
  {
    assert [p][1..] == [];
  }

  lemma RefusedWithout(ps: seq<Attempt>, i: nat, x: Item)
    requires i < |ps|
    ensures CountRefused(ps, x) == CountRefused(Without(ps, i), x) + if ps[i].item == x then 1 else 0
  {
    assert ps == ps[..i] + [ps[i]] + ps[i + 1..];
    RefusedAppend(ps[..i] + [ps[i]], ps[i + 1..], x);
    RefusedAppend(ps[..i], [ps[i]], x);
    RefusedAppend(ps[..i], ps[i + 1..], x);
    RefusedOne(ps[i], x);
  }

  lemma {:induction false} RefusedIn(ps: seq<Attempt>, x: Item)
    ensures CountRefused(ps, x) > 0 <==> exists p :: p in ps && p.item == x
  {
    if ps != [] {
      RefusedIn(ps[1..], x);
      assert ps == [ps[0]] + ps[1..];
    }
  }

  /** The core's decision moves an item, and its removal takes one out. */
  lemma OutstandingDecided(y: System, act: Act, x: Item)
    requires Possible(y, act) && Order.OneHandler(y.s) && (act.Accept? || act.RefuseIt? || act.Unqueue?)
    ensures Outstanding(Do(y, act), x) <= Outstanding(y, x) - if act.Unqueue? && x == y.refused[act.i].item then 1 else 0
  {
    hide HandlerAfter, Order.OneHandler, TakenOut, Without, Count, CountRefused;
    match act
    case Accept =>
      var r := Tracked(y.current.value.item);
      CountAppend(if y.open then y.kept else y.wire, [r], x);
      CountOne(r, x);
    case RefuseIt =>
      RefusedAppend(y.refused, [y.current.value], x);
      RefusedOne(y.current.value, x);
    case Unqueue(i) => RefusedWithout(y.refused, i, x);
    case _ =>
  }

  /** A send adds its item to the outstanding ones, its removal and the reply take it out, an abort some of them. */
  lemma OutstandingAfter(y: System, act: Act, x: Item)
    requires Possible(y, act) && Order.OneHandler(y.s)
    ensures Outstanding(Do(y, act), x)
         <= Outstanding(y, x) + (if act.Send? && x == Started(y, act) then 1 else 0)
            - (if act.Unqueue? && x == y.refused[act.i].item then 1 else 0)
            - (if act.Respond? && Tracked(x) == y.wire[act.i] then 1 else 0)
  {
    hide HandlerAfter, Reacted, Order.OneHandler, OwnTaken, NoneOfBatch, Started, Without, Count, CountRefused;
    if act.Accept? || act.RefuseIt? || act.Unqueue? {
      hide Do, Outstanding;
      OutstandingDecided(y, act, x);
    } else {
      NothingCounts(x);
      match act
      case SendBare(id, _) =>
        CountAppend(if y.open then y.kept else y.wire, [Bare(id)], x);
        CountOne(Bare(id), x);
      case CommitCore => CountAppend(y.wire, y.kept, x);
      case Respond(i, _) => CountWithout(y.wire, i, x);
      case _ =>
    }
  }

  lemma NothingCounts(x: Item)
    ensures Count([], x) == 0 && CountRefused([], x) == 0
  {
  }

  lemma SameItem(x: Item, z: Item, sent: seq<Item>, past: seq<Act>)
    requires Recorded(sent, past) && IdsDistinct(past) && x in sent && z in sent && x.entry.reqId == z.entry.reqId
    ensures x == z
  {
  }

  lemma StaysIn<T>(q: seq<T>, k: nat, x: T)
    requires k < |q| && x in q && x != q[k]
    ensures x in Without(q, k)
  {
    var i :| 0 <= i < |q| && q[i] == x;
    assert Without(q, k)[if i < k then i else i - 1] == x;
  }

  /** Taking a refused item out of a queue takes no other item out. */
  lemma OthersStay(y: System, past: seq<Act>, p: Attempt, x: Item)
    requires InStep(y) && Told(y, past) && IdsDistinct(past) && p in Attempts(y)
    requires Placed(y, past, p.item) && NotDropped(p, past) && x != p.item
    ensures var q := if p.inBatch then y.batched else y.queued;
      x in q ==> x in TakenOut(q, p.item.rec)
  {
    hide StageOf, LastOf, Recs, Recorded;
    var q := if p.inBatch then y.batched else y.queued;
    var k := LastOf(Recs(q), p.item.rec);
    if x in q && k.Some? {
      ItemAt(y.s, q, k.value);
      assert q[k.value] in q && AttemptSent(p, y.sent, past);
      SameItem(q[k.value], p.item, y.sent, past);
      StaysIn(q, k.value, x);
    }
  }

  /** A reply that takes its own request's item takes no other. */
  lemma OthersStayBehind(y: System, past: seq<Act>, i: nat, x: Item)
    requires Told(y, past) && IdsDistinct(past) && i < |y.wire| && Tracked(x) != y.wire[i] && x in y.queued
    ensures x in OwnTaken(y.queued, y.wire[i], y.random)
  {
    hide StageOf, Recorded, Find;
    var k := Find(y.queued, y.wire[i].ReqId(), y.random);
    if y.wire[i].Tracked? && k.Some? && y.queued[k.value].entry == y.wire[i].item.entry {
      assert y.wire[i] in y.wire && y.queued[k.value] in y.queued;
      assert Sent(y.wire[i], y.sent, past);
      SameItem(y.queued[k.value], y.wire[i].item, y.sent, past);
      StaysIn(y.queued, k.value, x);
    }
  }

  lemma PlacedStill(y: System, past: seq<Act>, act: Act, x: Item)
    requires Possible(y, act) && Order.OneHandler(y.s) && InStep(y) && Told(y, past) && IdsDistinct(past)
    requires Full(y, past) && Placed(y, past, x)
    requires act.Unqueue? ==> x != y.refused[act.i].item && Placed(y, past, y.refused[act.i].item)
    requires act.Respond? ==> Tracked(x) != y.wire[act.i]
    ensures Placed(Do(y, act), past + [act], x)
  {
    hide StageOf, HandlerAfter, Reacted, Order.OneHandler, TakenOut, OwnTaken, NoneOfBatch, Started;
    hide InStep, Told, IdsDistinct, AllPlaced;
    StageGrows(past, act, x.at);
    if act.Unqueue? {
      assert y.refused[act.i] in Attempts(y) by { assert Attempts(y)[act.i] == y.refused[act.i]; }
      OthersStay(y, past, y.refused[act.i], x);
    } else if act.Respond? {
      if x in y.queued {
        OthersStayBehind(y, past, act.i, x);
      }
    }
  }

  lemma OutstandingSent(y: System, past: seq<Act>, x: Item)
    requires Told(y, past) && Outstanding(y, x) > 0
    ensures x in y.sent && MadeBy(x, past)
  {
    hide Count, CountRefused, StageOf;
    CountIn(y.wire, x);
    CountIn(y.kept, x);
    RefusedIn(y.refused, x);
    if Tracked(x) in y.wire {
      assert Sent(Tracked(x), y.sent, past);
    } else if Tracked(x) in y.kept {
      assert Sent(Tracked(x), y.sent, past);
    } else if y.current.Some? && y.current.value.item == x {
      assert y.current.value in Attempts(y);
    } else {
      var p :| p in y.refused && p.item == x;
      assert p in Attempts(y);
    }
  }

  lemma AttemptOutstanding(y: System, p: Attempt)
    requires p in Attempts(y)
    ensures Outstanding(y, p.item) > 0
  {
    hide Count, CountRefused;
    RefusedIn(y.refused, p.item);
  }

  lemma SendPlaced(y: System, past: seq<Act>, act: Act)
    requires act.Send? && Possible(y, act) && Order.OneHandler(y.s) && Told(y, past)
    ensures Placed(Do(y, act), past + [act], Started(y, act)) && Outstanding(y, Started(y, act)) == 0
  {
    hide StageOf, HandlerAfter, Outstanding, QueuesTold, RequestsTold, AttemptsTold, AnswersTold;
    StageAtFirst(past, act);
    if Outstanding(y, Started(y, act)) > 0 {
      OutstandingSent(y, past, Started(y, act));
    }
  }

  lemma DoKeepsPlaced(y: System, past: seq<Act>, act: Act)
    requires Possible(y, act) && Order.OneHandler(y.s) && InStep(y) && Told(y, past) && IdsDistinct(past) && Full(y, past)
    ensures AllPlaced(Do(y, act), past + [act])
  {
    hide Order.OneHandler, InStep, Told, Outstanding, Placed, IdsDistinct, Do, NotDropped;
    var z := Do(y, act);
    forall x: Item | Outstanding(z, x) > 0 ensures Outstanding(z, x) == 1 && Placed(z, past + [act], x) {
      OutstandingAfter(y, act, x);
      if act.Send? && x == Started(y, act) {
        SendPlaced(y, past, act);
      } else {
        if act.Unqueue? {
          assert Attempts(y)[act.i] == y.refused[act.i];
          AttemptOutstanding(y, y.refused[act.i]);
        }
        PlacedStill(y, past, act, x);
      }
    }
  }

  lemma DoKeepsUndropped(y: System, past: seq<Act>, act: Act)
    requires Possible(y, act) && Order.OneHandler(y.s) && Told(y, past) && Full(y, past) && Do(y, act).settled
    ensures forall p <- Attempts(Do(y, act)) :: NotDropped(p, past + [act])
  {
    hide StageOf, HandlerAfter, Reacted, Order.OneHandler, TakenOut, OwnTaken;
    hide AllPlaced, QueuesTold, RequestsTold, AnswersTold;
    var z := Do(y, act);
    forall p <- Attempts(z) ensures NotDropped(p, past + [act]) {
      if act.Send? && p == Attempt(Started(y, act), act.inBatch) {
        StageAtFirst(past, act);
      } else {
        assert p in Attempts(y) && NotDropped(p, past) && AttemptSent(p, y.sent, past);
        StageGrows(past, act, p.item.at);
        if act.Clean? {
          NeverInBatch(past, p.item.at);
        }
      }
    }
  }

  lemma NeverInBatch(past: seq<Act>, k: nat)
    requires k < |past| && past[k].Send? && !past[k].inBatch
    ensures StageOf(past, k, |past|) == InQueue
  {
  }

  // Replies in random order

  lemma {:induction false} FindsOwn(q: seq<Item>, x: Item)
    requires x in q && forall z <- q :: z.entry.reqId == x.entry.reqId ==> z == x
    ensures FirstOfId(q, x.entry.reqId).Some? && q[FirstOfId(q, x.entry.reqId).value] == x
  {
    if q[0].entry.reqId != x.entry.reqId {
      FindsOwn(q[1..], x);
    }
  }

  lemma {:induction false} FindsNone(q: seq<Item>, id: nat)
    requires forall z <- q :: z.entry.reqId != id
    ensures FirstOfId(q, id).None?
  {
    if q != [] {
      FindsNone(q[1..], id);
    }
  }

  /** In random order, a reply is due to find its own request's record exactly if that one has arrived. */
  lemma UnobstructedExactly(a: Answered, sent: seq<Item>, past: seq<Act>)
    requires Recorded(sent, past) && IdsDistinct(past) && AnswerTold(a, sent, past)
    ensures Unobstructed(a, true) <==> a.request.Tracked? ==> a.request.item in a.queued
  {
    hide StageOf, FirstOfId;
    if a.request.Tracked? {
      var x := a.request.item;
      forall z <- a.queued | z.entry.reqId == x.entry.reqId ensures z == x {
        SameItem(z, x, sent, past);
      }
      if x in a.queued {
        FindsOwn(a.queued, x);
      } else {
        FindsNone(a.queued, x.entry.reqId);
      }
    } else {
      FindsNone(a.queued, a.request.id);
    }
  }

  /** The records of all requests answered had arrived. */
  ghost predicate AllArrived(answers: seq<Answered>, past: seq<Act>) {
    forall a <- answers :: a.request.Tracked? ==> Arrived(past, a.request.item.at, a.done)
  }

  lemma ArrivedGrows(answers: seq<Answered>, sent: seq<Item>, past: seq<Act>, act: Act)
    requires forall a <- answers :: AnswerTold(a, sent, past)
    ensures AllArrived(answers, past + [act]) <==> AllArrived(answers, past)
  {
    hide StageOf;
    forall a <- answers | a.request.Tracked?
      ensures Arrived(past + [act], a.request.item.at, a.done) <==> Arrived(past, a.request.item.at, a.done)
    {
      assert AnswerTold(a, sent, past);
      if a.request.item.at < |past| && past[a.request.item.at].Send? {
        StageGrows(past, act, a.request.item.at);
      }
    }
  }

  /** What is due and what is told, in any state; and while all records arrived, where each is. */
  ghost predicate Good(y: System, past: seq<Act>) {
    && y.random && Exact(y) && Told(y, past)
    && (y.settled && AllArrived(y.answers, past) ==> AllUnobstructed(y.answers, true) && Full(y, past))
  }

  lemma IdsStayDistinct(past: seq<Act>, act: Act)
    requires IdsDistinct(past + [act])
    ensures IdsDistinct(past)
  {
    var all := past + [act];
    assert forall i :: 0 <= i < |past| ==> all[i] == past[i];
  }

  lemma WireIsOutstanding(y: System, i: nat)
    requires i < |y.wire| && y.wire[i].Tracked?
    ensures Outstanding(y, y.wire[i].item) > 0
  {
    hide Count, CountRefused;
    CountIn(y.wire, y.wire[i].item);
  }

  /** The reply to a request whose record has arrived finds it. */
  lemma ArrivedIsFound(y: System, past: seq<Act>, i: nat, failed: bool)
    requires Possible(y, Respond(i, failed)) && Order.OneHandler(y.s) && Told(y, past) && Full(y, past)
    requires var all := past + [Respond(i, failed)]; IdsDistinct(all) && AllArrived([Reacted(y, i, failed)], all)
    ensures Unobstructed(Reacted(y, i, failed), true)
  {
    hide StageOf, Outstanding, Order.OneHandler, IdsDistinct, Find, Do;
    var act := Respond(i, failed);
    var a := Reacted(y, i, failed);
    DoKeepsTold(y, past, act);
    AnswersAfter(y, act);
    assert a in Do(y, act).answers && a in [a];
    UnobstructedExactly(a, Do(y, act).sent, past + [act]);
    if a.request.Tracked? {
      WireIsOutstanding(y, i);
      StageGrows(past, act, a.request.item.at);
    }
  }

  lemma SettledBefore(y: System, act: Act)
    requires Possible(y, act) && Order.OneHandler(y.s)
    ensures Do(y, act).settled ==> y.settled
  {
    hide HandlerAfter, Reacted, Order.OneHandler, TakenOut, OwnTaken, NoneOfBatch, Started;
  }

  lemma DoKeepsGood(y: System, past: seq<Act>, act: Act)
    requires Possible(y, act) && Good(y, past) && IdsDistinct(past + [act])
    ensures Good(Do(y, act), past + [act])
  {
    hide Do, Inv, Told, Full, AllPlaced, IdsDistinct, AllUnobstructed, AllRight, InStep, AllArrived, Reacted;
    var z, all := Do(y, act), past + [act];
    IdsStayDistinct(past, act);
    DoKeepsExact(y, act);
    DoKeepsTold(y, past, act);
    AnswersAfter(y, act);
    if z.settled && AllArrived(z.answers, all) {
      SettledBefore(y, act);
      ArrivedParts(y.answers, if act.Respond? then [Reacted(y, act.i, act.failed)] else [], all);
      ArrivedBefore(y, past, act);
      FullAfter(y, past, act);
      if act.Respond? {
        ArrivedIsFound(y, past, act.i, act.failed);
        OneMoreAnswer(y.answers, Reacted(y, act.i, act.failed), true);
      } else {
        assert y.answers + [] == y.answers;
      }
    }
  }

  lemma ArrivedParts(a: seq<Answered>, b: seq<Answered>, past: seq<Act>)
    ensures AllArrived(a + b, past) <==> AllArrived(a, past) && AllArrived(b, past)
  {
    hide Arrived;
    assert forall x <- a :: x in a + b;
    assert forall x <- b :: x in a + b;
  }

  lemma ArrivedBefore(y: System, past: seq<Act>, act: Act)
    requires Told(y, past)
    ensures AllArrived(y.answers, past + [act]) <==> AllArrived(y.answers, past)
  {
    hide AllArrived, AnswerTold;
    ArrivedGrows(y.answers, y.sent, past, act);
  }

  lemma FullAfter(y: System, past: seq<Act>, act: Act)
    requires Possible(y, act) && Order.OneHandler(y.s) && InStep(y) && Told(y, past) && IdsDistinct(past) && Full(y, past)
    requires Do(y, act).settled
    ensures Full(Do(y, act), past + [act])
  {
    hide Do, InStep, Told, Order.OneHandler, IdsDistinct, AllPlaced;
    DoKeepsPlaced(y, past, act);
    DoKeepsUndropped(y, past, act);
  }

  lemma {:induction false} RunKeepsGood(y: System, past: seq<Act>, acts: seq<Act>)
    requires Good(y, past) && RunAll(y, acts).Some? && IdsDistinct(past + acts)
    ensures Good(RunAll(y, acts).value, past + acts)
    decreases |acts|
  {
    hide Good, Do, Possible, IdsDistinct, Order.OneHandler;
    if acts == [] {
      assert past + acts == past;
    } else {
      var rest := acts[1..];
      assert past + acts == past + [acts[0]] + rest;
      IdsOfFront(past + [acts[0]], rest);
      DoKeepsGood(y, past, acts[0]);
      RunKeepsGood(Do(y, acts[0]), past + [acts[0]], rest);
    }
  }

  lemma IdsOfFront(a: seq<Act>, b: seq<Act>)
    requires IdsDistinct(a + b)
    ensures IdsDistinct(a)
  {
    assert forall i :: 0 <= i < |a| ==> (a + b)[i] == a[i];
  }

  lemma StartIsGood()
    ensures Good(Fresh(true), [])
  {
    hide Exact;
    StartIsExact(true);
  }

  /**
    In random order, with an id of its own for each request that has callbacks, and no abort while
    a send of the batch is undecided or its refusal not yet finished: all replies were right if and
    only if each request answered had been sent outside a batch, or had seen the flush of a commit,
    and no abort's before it, between its sending and its reply.
  */
  lemma RightIfAndOnlyIfArrived(acts: seq<Act>)
    requires RunAll(Fresh(true), acts).Some? && IdsDistinct(acts) && RunAll(Fresh(true), acts).value.settled
    ensures var y := RunAll(Fresh(true), acts).value; AllRight(y.answers) <==> AllArrived(y.answers, acts)
  {
    hide RunAll, Exact, Full, AllRight, AllUnobstructed, Arrived, Recorded, IdsDistinct, AnswerTold, StageOf;
    StartIsGood();
    assert [] + acts == acts;
    RunKeepsGood(Fresh(true), [], acts);
    RightIfAndOnlyIfUnobstructed(acts, true);
    var y := RunAll(Fresh(true), acts).value;
    if AllRight(y.answers) {
      forall a <- y.answers | a.request.Tracked? ensures Arrived(acts, a.request.item.at, a.done) {
        FoundHadArrived(y, acts, a);
      }
    }
  }

  lemma FoundHadArrived(y: System, acts: seq<Act>, a: Answered)
    requires Told(y, acts) && IdsDistinct(acts) && AllUnobstructed(y.answers, true) && a in y.answers && a.request.Tracked?
    ensures Arrived(acts, a.request.item.at, a.done)
  {
    hide StageOf, Unobstructed, Recorded;
    assert AnswerTold(a, y.sent, acts) && Unobstructed(a, true);
    UnobstructedExactly(a, y.sent, acts);
  }
}
