/**
  Matching replies to requests (include/aclientw.cpp, include/aclientw.h): the records that hold
  a request's callbacks move between the callback queue and the batch queue of the handlers, the
  pool all handlers share, and the steps at work on them. The machine interleaves the locked
  sections of sends, replies, exceptions, cleaning, merging and pool trimming of any number of
  handlers and threads; the core below is an environment that accepts or refuses a send.
*/
module Callbacks {
  import opened Wrappers

  /** The address of a callback record. */
  type Rec = nat

  /** What a record holds: the request it was last filled for and which callbacks that request has. */
  datatype Entry = Entry(send: nat, reqId: nat, result: bool, discarded: bool, exception: bool)

  datatype Kind = Returned | Exception | Discarded

  /** A callback of a request fired. */
  datatype Event = Event(send: nat, kind: Kind)

  datatype Handler = Handler(queue: seq<Rec>, batch: seq<Rec>)

  /** A send between queueing its record and learning whether the core took the request. */
  datatype Pending = Pending(h: nat, r: Rec, batching: bool)

  /**
    `held` are records popped for a reply and not yet recycled, `swept` blocks of records taken
    out for cleaning and not yet put back; `sends` and `log` are the history.
  */
  datatype State = State(handlers: seq<Handler>, pool: seq<Rec>, held: seq<Rec>, swept: seq<seq<Rec>>,
                         entries: map<Rec, Entry>, pending: multiset<Pending>, sends: seq<Entry>, log: seq<Event>)

  datatype Step =
    | SendBegin(h: nat, reqId: nat, result: bool, discarded: bool, exception: bool, batching: bool, made: Rec)
    | SendAccepted(p: Pending)
    | SendRefused(p: Pending)
    | Commit(h: nat)
    | Abort(h: nat)
    | Reply(h: nat, reqId: nat, failed: bool, random: bool)
    | Recycle(i: nat)
    | Sweep(h: nat)
    | PutBack(i: nat)
    | Merge(h: nat, to: nat)
    | TrimPool(remaining: nat)

  // What the operations do to a queue

  ghost predicate Known(queue: seq<Rec>, entries: map<Rec, Entry>) {
    forall r <- queue :: r in entries
  }

  /** The first record of the request id. */
  function FirstOf(queue: seq<Rec>, entries: map<Rec, Entry>, reqId: nat): (i: Option<nat>)
    requires Known(queue, entries)
    ensures i.Some? ==> i.value < |queue| && entries[queue[i.value]].reqId == reqId
    ensures i.Some? ==> forall k :: 0 <= k < i.value ==> entries[queue[k]].reqId != reqId
    ensures i.None? ==> forall k :: 0 <= k < |queue| ==> entries[queue[k]].reqId != reqId
  {
    if queue == [] then None
    else if entries[queue[0]].reqId == reqId then Some(0)
    else
      assert forall k :: 1 <= k < |queue| ==> queue[1..][k - 1] == queue[k];
      match FirstOf(queue[1..], entries, reqId)
      case None => None
      case Some(i) => Some(i + 1)
  }

  /** Where the record of a reply is: at the front, or anywhere when requests are answered in random order. */
  function Matching(queue: seq<Rec>, entries: map<Rec, Entry>, reqId: nat, random: bool): (i: Option<nat>)
    requires Known(queue, entries)
    ensures i.Some? ==> i.value < |queue| && entries[queue[i.value]].reqId == reqId
  {
    if random then FirstOf(queue, entries, reqId)
    else if queue != [] && entries[queue[0]].reqId == reqId then Some(0)
    else None
  }

  function LastOf(queue: seq<Rec>, r: Rec): (i: Option<nat>)
    ensures i.Some? ==> i.value < |queue| && queue[i.value] == r
    ensures i.Some? <==> r in queue
  {
    if queue == [] then None
    else if queue[|queue| - 1] == r then Some(|queue| - 1)
    else
      assert queue == queue[..|queue| - 1] + [queue[|queue| - 1]];
      LastOf(queue[..|queue| - 1], r)
  }

  lemma LastIsFound(q: seq<Rec>, r: Rec)
    ensures LastOf(q + [r], r) == Some(|q|) && Without(q + [r], |q|) == q
  {
  }

  /** The discarded callbacks of the records, in order. */
  function Discards(queue: seq<Rec>, entries: map<Rec, Entry>): seq<Event>
    requires Known(queue, entries)
  {
    if queue == [] then []
    else (if entries[queue[0]].discarded then [Event(entries[queue[0]].send, Discarded)] else [])
         + Discards(queue[1..], entries)
  }

  function Fired(e: Entry, failed: bool): seq<Event> {
    if failed then (if e.exception then [Event(e.send, Exception)] else [])
    else (if e.result then [Event(e.send, Returned)] else [])
  }

  ghost predicate AllKnown(s: State) {
    forall h :: 0 <= h < |s.handlers| ==> Known(s.handlers[h].queue, s.entries) && Known(s.handlers[h].batch, s.entries)
  }

  // The machine

  ghost predicate Enabled(s: State, step: Step) {
    match step
    case SendBegin(h, _, result, discarded, exception, _, made) =>
      h < |s.handlers| && (result || discarded || exception) && made !in s.entries
    case SendAccepted(p) => p in s.pending
    case SendRefused(p) => p in s.pending && p.h < |s.handlers|
    case Commit(h) => h < |s.handlers|
    case Abort(h) => h < |s.handlers|
    case Reply(h, _, _, _) => h < |s.handlers|
    case Recycle(i) => i < |s.held|
    case Sweep(h) => h < |s.handlers|
    case PutBack(i) => i < |s.swept|
    case Merge(h, to) => h < |s.handlers| && to < |s.handlers| && h != to
    case TrimPool(_) => true
  }

  function With(s: State, h: nat, handler: Handler): State
    requires h < |s.handlers|
  {
    s.(handlers := s.handlers[h := handler])
  }

  /** Takes the pool's front record, or makes one, fills all of it for the new request and queues it. */
  function Begin(s: State, h: nat, reqId: nat, result: bool, discarded: bool, exception: bool,
                 batching: bool, made: Rec): State
    requires h < |s.handlers|
  {
    var r := if s.pool != [] then s.pool[0] else made;
    var entry := Entry(|s.sends|, reqId, result, discarded, exception);
    var at := s.handlers[h];
    var handler := if batching then at.(batch := at.batch + [r]) else at.(queue := at.queue + [r]);
    With(s, h, handler).(pool := if s.pool != [] then s.pool[1..] else [],
                         entries := s.entries[r := entry],
                         pending := s.pending + multiset{Pending(h, r, batching)},
                         sends := s.sends + [entry])
  }

  /** One place of the queue a send used is closed, and the record goes to the front of the pool. */
  function Unqueued(s: State, p: Pending, i: nat): State
    requires p.h < |s.handlers| && i < |if p.batching then s.handlers[p.h].batch else s.handlers[p.h].queue|
  {
    var at := s.handlers[p.h];
    With(s, p.h, if p.batching then at.(batch := Without(at.batch, i)) else at.(queue := Without(at.queue, i)))
      .(pool := [p.r] + s.pool)
  }

  /** The record of a refused send is looked for where it was queued, from the back, and recycled if found. */
  function Refuse(s: State, p: Pending): State
    requires p.h < |s.handlers|
  {
    var pending := s.pending - multiset{p};
    match LastOf(if p.batching then s.handlers[p.h].batch else s.handlers[p.h].queue, p.r)
    case None => s.(pending := pending)
    case Some(i) => Unqueued(s, p, i).(pending := pending)
  }

  /** A result or an exception arrives: the matching record is popped and its callback fires. */
  function Answer(s: State, h: nat, reqId: nat, failed: bool, random: bool): State
    requires h < |s.handlers| && Known(s.handlers[h].queue, s.entries)
  {
    var at := s.handlers[h];
    match Matching(at.queue, s.entries, reqId, random)
    case None => s
    case Some(i) =>
      var r := at.queue[i];
      With(s, h, at.(queue := Without(at.queue, i))).(held := s.held + [r], log := s.log + Fired(s.entries[r], failed))
  }

  /** Both queues are taken out; the discarded callbacks of all their records fire. */
  function SweepOut(s: State, h: nat): State
    requires h < |s.handlers| && Known(s.handlers[h].queue, s.entries) && Known(s.handlers[h].batch, s.entries)
  {
    var at := s.handlers[h];
    With(s, h, Handler([], [])).(swept := s.swept + [at.batch, at.queue],
                                 log := s.log + Discards(at.batch, s.entries) + Discards(at.queue, s.entries))
  }

  function Trim(s: State, remaining: nat): State {
    if remaining >= |s.pool| then s
    else
      s.(pool := s.pool[..remaining], entries := s.entries - set r | r in s.pool[remaining..])
  }

  ghost function Next(s: State, step: Step): State
    requires Enabled(s, step) && AllKnown(s)
  {
    match step
    case SendBegin(h, reqId, result, discarded, exception, batching, made) =>
      Begin(s, h, reqId, result, discarded, exception, batching, made)
    case SendAccepted(p) => s.(pending := s.pending - multiset{p})
    case SendRefused(p) => Refuse(s, p)
    case Commit(h) =>
      var at := s.handlers[h];
      With(s, h, Handler(at.queue + at.batch, []))
    case Abort(h) =>
      var at := s.handlers[h];
      With(s, h, at.(batch := [])).(pool := s.pool + at.batch)
    case Reply(h, reqId, failed, random) => Answer(s, h, reqId, failed, random)
    case Recycle(i) => s.(held := Without(s.held, i), pool := [s.held[i]] + s.pool)
    case Sweep(h) => SweepOut(s, h)
    case PutBack(i) => s.(swept := Without(s.swept, i), pool := s.pool + s.swept[i])
    case Merge(h, to) =>
      var from, into := s.handlers[h], s.handlers[to];
      With(With(s, h, from.(queue := [])), to, into.(queue := into.queue + from.queue))
    case TrimPool(remaining) => Trim(s, remaining)
  }

  ghost function Run(s: State, steps: seq<Step>): Option<State>
    decreases |steps|
  {
    if steps == [] then Some(s)
    else if Enabled(s, steps[0]) && AllKnown(s) then Run(Next(s, steps[0]), steps[1..])
    else None
  }

  // What every step keeps

  function Times(q: seq<Rec>, r: Rec): nat {
    if q == [] then 0 else (if q[0] == r then 1 else 0) + Times(q[1..], r)
  }

  /** How often a record waits for its reply or its commit, over all handlers. */
  function Waits(hs: seq<Handler>, r: Rec): nat {
    if hs == [] then 0 else Times(hs[0].queue, r) + Times(hs[0].batch, r) + Waits(hs[1..], r)
  }

  function InBlocks(blocks: seq<seq<Rec>>, r: Rec): nat {
    if blocks == [] then 0 else Times(blocks[0], r) + InBlocks(blocks[1..], r)
  }

  /** In how many places a record is. */
  function Places(s: State, r: Rec): nat {
    Waits(s.handlers, r) + Times(s.pool, r) + Times(s.held, r) + InBlocks(s.swept, r)
  }

  /** Every live record is in exactly one place, and every place holds live records only. */
  ghost predicate Conserved(s: State) {
    forall r: Rec :: PlacedOnce(s, r)
  }

  predicate PlacedOnce(s: State, r: Rec) {
    Places(s, r) == if r in s.entries then 1 else 0
  }

  ghost predicate NotLogged(log: seq<Event>, send: nat) {
    forall e <- log :: e.send != send
  }

  ghost predicate HasCallback(e: Entry, kind: Kind) {
    match kind
    case Returned => e.result
    case Exception => e.exception
    case Discarded => e.discarded
  }

  /** What fired belongs to the requests that asked for it, and to each request at most once. */
  ghost predicate Once(log: seq<Event>, sends: seq<Entry>) {
    && (forall e <- log :: e.send < |sends| && HasCallback(sends[e.send], e.kind))
    && (forall i, j :: 0 <= i < j < |log| ==> log[i].send != log[j].send)
  }

  /** A waiting record holds exactly the callbacks of one request, which has not been answered. */
  ghost predicate Own(s: State, r: Rec) {
    && r in s.entries
    && s.entries[r].send < |s.sends| && s.sends[s.entries[r].send] == s.entries[r]
    && NotLogged(s.log, s.entries[r].send)
  }

  ghost predicate Faithful(s: State) {
    && (forall r: Rec :: Waits(s.handlers, r) > 0 ==> Own(s, r))
    && (forall q: Rec, r: Rec :: Waits(s.handlers, q) > 0 && Waits(s.handlers, r) > 0 && q != r ==>
          s.entries[q].send != s.entries[r].send)
    && Once(s.log, s.sends)
  }

  ghost predicate Inv(s: State) {
    Conserved(s) && Faithful(s)
  }

  // Counting

  lemma {:induction false} TimesAppend(a: seq<Rec>, b: seq<Rec>, r: Rec)
    ensures Times(a + b, r) == Times(a, r) + Times(b, r)
  {
    if a == [] {
      assert a + b == b;
    } else {
      assert (a + b)[1..] == a[1..] + b;
      TimesAppend(a[1..], b, r);
    }
  }

  lemma TimesOne(x: Rec, r: Rec)
    ensures Times([x], r) == (if x == r then 1 else 0) && Times([], r) == 0
  {
  }

  lemma TimesWithout(q: seq<Rec>, i: nat, r: Rec)
    requires i < |q|
    ensures Times(q, r) == Times(Without(q, i), r) + if q[i] == r then 1 else 0
  {
    hide Times;
    assert q == q[..i] + ([q[i]] + q[i + 1..]);
    TimesAppend(q[..i], [q[i]] + q[i + 1..], r);
    TimesAppend([q[i]], q[i + 1..], r);
    TimesAppend(q[..i], q[i + 1..], r);
    TimesOne(q[i], r);
  }

  lemma {:induction false} TimesIn(q: seq<Rec>, r: Rec)
    ensures r in q <==> Times(q, r) > 0
  {
    if q != [] {
      TimesIn(q[1..], r);
      assert q == [q[0]] + q[1..];
    }
  }

  /** Replacing one handler's queues changes the count by what they held and hold. */
  lemma {:induction false} WaitsUpdate(hs: seq<Handler>, h: nat, at: Handler, r: Rec)
    requires h < |hs|
    ensures Waits(hs[h := at], r) + Times(hs[h].queue, r) + Times(hs[h].batch, r)
         == Waits(hs, r) + Times(at.queue, r) + Times(at.batch, r)
    ensures Waits(hs, r) >= Times(hs[h].queue, r) + Times(hs[h].batch, r)
  {
    hide Times;
    if h == 0 {
      assert hs[h := at][1..] == hs[1..];
    } else {
      assert hs[h := at][1..] == hs[1..][h - 1 := at];
      WaitsUpdate(hs[1..], h - 1, at, r);
    }
  }

  lemma {:induction false} BlocksAppend(blocks: seq<seq<Rec>>, a: seq<Rec>, b: seq<Rec>, r: Rec)
    ensures InBlocks(blocks + [a, b], r) == InBlocks(blocks, r) + Times(a, r) + Times(b, r)
  {
    hide Times;
    if blocks == [] {
      assert blocks + [a, b] == [a, b] && [a, b][1..] == [b] && [b][1..] == [];
      assert InBlocks([b], r) == Times(b, r) + InBlocks([], r);
    } else {
      assert (blocks + [a, b])[1..] == blocks[1..] + [a, b];
      BlocksAppend(blocks[1..], a, b, r);
    }
  }

  lemma {:induction false} BlocksWithout(blocks: seq<seq<Rec>>, i: nat, r: Rec)
    requires i < |blocks|
    ensures InBlocks(blocks, r) == InBlocks(Without(blocks, i), r) + Times(blocks[i], r)
  {
    hide Times;
    if i == 0 {
      assert Without(blocks, 0) == blocks[1..];
    } else {
      assert Without(blocks, i)[1..] == Without(blocks[1..], i - 1);
      BlocksWithout(blocks[1..], i - 1, r);
    }
  }

  /** The records of a handler are waiting, and live. */
  lemma Queued(s: State, h: nat, r: Rec)
    requires Conserved(s) && h < |s.handlers| && (r in s.handlers[h].queue || r in s.handlers[h].batch)
    ensures Waits(s.handlers, r) == 1 && r in s.entries && r !in s.pool && r !in s.held
  {
    hide Times, Waits;
    WaitsUpdate(s.handlers, h, s.handlers[h], r);
    TimesIn(s.handlers[h].queue, r);
    TimesIn(s.handlers[h].batch, r);
    TimesIn(s.pool, r);
    TimesIn(s.held, r);
    assert PlacedOnce(s, r);
  }

  lemma ConservedIsKnown(s: State)
    requires Conserved(s)
    ensures AllKnown(s)
  {
    hide Conserved;
    forall h | 0 <= h < |s.handlers|
      ensures Known(s.handlers[h].queue, s.entries) && Known(s.handlers[h].batch, s.entries)
    {
      forall r | r in s.handlers[h].queue || r in s.handlers[h].batch ensures r in s.entries {
        Queued(s, h, r);
      }
    }
  }

  // Conservation, record by record

  lemma BeginPlaces(s: State, step: Step, r: Rec)
    requires step.SendBegin? && Enabled(s, step) && AllKnown(s) && Conserved(s)
    ensures PlacedOnce(Next(s, step), r)
    ensures var p := if s.pool != [] then s.pool[0] else step.made;
      Waits(Next(s, step).handlers, r) == Waits(s.handlers, r) + (if r == p then 1 else 0) && Waits(s.handlers, p) == 0
  {
    hide Times, Waits, InBlocks, Conserved;
    var SendBegin(h, _, _, _, _, batching, made) := step;
    var t := Next(s, step);
    var at := s.handlers[h];
    var p := if s.pool != [] then s.pool[0] else made;
    WaitsUpdate(s.handlers, h, t.handlers[h], r);
    TimesAppend(if batching then at.batch else at.queue, [p], r);
    TimesOne(p, r);
    PlaceOf(s, r);
    PlaceOf(s, p);
    if s.pool != [] {
      assert s.pool == [p] + s.pool[1..];
      TimesAppend([p], s.pool[1..], r);
      TimesIn(s.pool, p);
    }
  }

  lemma PlaceOf(s: State, r: Rec)
    requires Conserved(s)
    ensures PlacedOnce(s, r)
  {
  }

  lemma RefusePlaces(s: State, p: Pending, r: Rec)
    requires p.h < |s.handlers| && Conserved(s)
    ensures PlacedOnce(Refuse(s, p), r) && Waits(Refuse(s, p).handlers, r) <= Waits(s.handlers, r)
  {
    hide Times, Waits, InBlocks, Conserved, LastOf, Without;
    var t := Refuse(s, p);
    var at := s.handlers[p.h];
    var q := if p.batching then at.batch else at.queue;
    PlaceOf(s, r);
    match LastOf(q, p.r)
    case None =>
    case Some(i) =>
      WaitsUpdate(s.handlers, p.h, t.handlers[p.h], r);
      TimesWithout(q, i, r);
      TimesAppend([p.r], s.pool, r);
      TimesOne(p.r, r);
  }

  /**
    A refused send recycles its record exactly if the record is still where it was queued; then
    that one place in that one queue is closed, and nothing else moves. Otherwise nothing moves.
  */
  lemma RefusedExactly(s: State, p: Pending)
    requires p.h < |s.handlers|
    ensures var t, at := Refuse(s, p), s.handlers[p.h];
      var q := if p.batching then at.batch else at.queue;
      && (t.pool == [p.r] + s.pool <==> p.r in q)
      && (p.r !in q ==> t == s.(pending := t.pending))
      && (p.r in q ==> exists i :: IsLastAt(q, p.r, i) && t == Unqueued(s, p, i).(pending := t.pending))
  {
    hide LastOf;
    var at := s.handlers[p.h];
    var q := if p.batching then at.batch else at.queue;
    LastIsLast(q, p.r);
    if p.r in q {
      var i := LastOf(q, p.r).value;
      assert IsLastAt(q, p.r, i) && Refuse(s, p) == Unqueued(s, p, i).(pending := Refuse(s, p).pending);
    }
  }

  ghost predicate IsLastAt(q: seq<Rec>, r: Rec, i: nat) {
    i < |q| && q[i] == r && r !in q[i + 1..]
  }

  lemma {:induction false} LastIsLast(q: seq<Rec>, r: Rec)
    ensures var i := LastOf(q, r); i.Some? ==> i.value < |q| && r !in q[i.value + 1..]
  {
    if q != [] && q[|q| - 1] != r {
      var front := q[..|q| - 1];
      LastIsLast(front, r);
      var i := LastOf(front, r);
      if i.Some? {
        assert q[i.value + 1..] == front[i.value + 1..] + [q[|q| - 1]];
      }
    }
  }

  lemma AnswerPlaces(s: State, h: nat, reqId: nat, failed: bool, random: bool, r: Rec)
    requires h < |s.handlers| && AllKnown(s) && Conserved(s)
    ensures var t, queue := Answer(s, h, reqId, failed, random), s.handlers[h].queue;
      var i := Matching(queue, s.entries, reqId, random);
      && PlacedOnce(t, r)
      && Waits(t.handlers, r) == Waits(s.handlers, r) - (if i.Some? && queue[i.value] == r then 1 else 0)
  {
    hide Times, Waits, InBlocks, Conserved, Matching, Without, Fired;
    var t := Answer(s, h, reqId, failed, random);
    var at := s.handlers[h];
    PlaceOf(s, r);
    match Matching(at.queue, s.entries, reqId, random)
    case None =>
    case Some(i) =>
      WaitsUpdate(s.handlers, h, t.handlers[h], r);
      TimesWithout(at.queue, i, r);
      TimesAppend(s.held, [at.queue[i]], r);
      TimesOne(at.queue[i], r);
  }

  lemma SweepPlaces(s: State, h: nat, r: Rec)
    requires h < |s.handlers| && AllKnown(s) && Conserved(s)
    ensures PlacedOnce(SweepOut(s, h), r)
    ensures Waits(SweepOut(s, h).handlers, r)
         == Waits(s.handlers, r) - Times(s.handlers[h].batch, r) - Times(s.handlers[h].queue, r)
  {
    hide Times, Waits, InBlocks, Conserved, Discards;
    var at := s.handlers[h];
    PlaceOf(s, r);
    WaitsUpdate(s.handlers, h, Handler([], []), r);
    BlocksAppend(s.swept, at.batch, at.queue, r);
    TimesOne(r, r);
  }

  lemma TrimPlaces(s: State, remaining: nat, r: Rec)
    requires Conserved(s)
    ensures PlacedOnce(Trim(s, remaining), r)
    ensures Waits(s.handlers, r) > 0 ==> r in Trim(s, remaining).entries && Trim(s, remaining).entries[r] == s.entries[r]
  {
    hide Times, Waits, InBlocks, Conserved;
    PlaceOf(s, r);
    if remaining < |s.pool| {
      var kept, gone := s.pool[..remaining], s.pool[remaining..];
      assert s.pool == kept + gone;
      TimesAppend(kept, gone, r);
      TimesIn(gone, r);
    }
  }

  /** The steps that fire nothing and queue nothing new: no record starts to wait. */
  lemma MovePlaces(s: State, step: Step, r: Rec)
    requires Enabled(s, step) && AllKnown(s) && Conserved(s)
    requires !step.SendBegin? && !step.Reply? && !step.Sweep?
    ensures PlacedOnce(Next(s, step), r) && Waits(Next(s, step).handlers, r) <= Waits(s.handlers, r)
  {
    hide Times, Waits, InBlocks, Conserved, Refuse, Trim, Without;
    var t := Next(s, step);
    PlaceOf(s, r);
    TimesOne(r, r);
    match step
    case SendAccepted(_) =>
    case SendRefused(p) =>
      RefusePlaces(s, p, r);
    case Commit(h) =>
      var at := s.handlers[h];
      WaitsUpdate(s.handlers, h, t.handlers[h], r);
      TimesAppend(at.queue, at.batch, r);
    case Abort(h) =>
      WaitsUpdate(s.handlers, h, t.handlers[h], r);
      TimesAppend(s.pool, s.handlers[h].batch, r);
    case Recycle(i) =>
      TimesWithout(s.held, i, r);
      TimesAppend([s.held[i]], s.pool, r);
      TimesOne(s.held[i], r);
    case PutBack(i) =>
      BlocksWithout(s.swept, i, r);
      TimesAppend(s.pool, s.swept[i], r);
    case Merge(h, to) =>
      var from, into := s.handlers[h], s.handlers[to];
      WaitsUpdate(s.handlers, h, from.(queue := []), r);
      WaitsUpdate(s.handlers[h := from.(queue := [])], to, into.(queue := into.queue + from.queue), r);
      TimesAppend(into.queue, from.queue, r);
    case TrimPool(remaining) =>
      TrimPlaces(s, remaining, r);
      TrimKeepsHandlers(s, remaining);
  }

  lemma TrimKeepsHandlers(s: State, remaining: nat)
    ensures Trim(s, remaining).handlers == s.handlers
  {
  }

  /** Every step keeps every live record in exactly one place. */
  lemma StepConserves(s: State, step: Step)
    requires Conserved(s) && Enabled(s, step) && AllKnown(s)
    ensures Conserved(Next(s, step))
  {
    hide PlacedOnce, Begin, Answer, SweepOut, Refuse, Trim;
    forall r: Rec ensures PlacedOnce(Next(s, step), r) {
      match step
      case SendBegin(_, _, _, _, _, _, _) => BeginPlaces(s, step, r);
      case Reply(h, reqId, failed, random) => AnswerPlaces(s, h, reqId, failed, random, r);
      case Sweep(h) => SweepPlaces(s, h, r);
      case _ => MovePlaces(s, step, r);
    }
  }

  // Faithfulness

  /** Nothing fires, and no record starts to wait. */
  lemma QuietStep(s: State, t: State)
    requires Faithful(s) && t.sends == s.sends && t.log == s.log
    requires forall r: Rec :: Waits(t.handlers, r) > 0 ==>
      Waits(s.handlers, r) > 0 && r in t.entries && t.entries[r] == s.entries[r]
    ensures Faithful(t)
  {
    hide Waits, Once;
    forall r: Rec | Waits(t.handlers, r) > 0 ensures Own(t, r) {
      assert Own(s, r);
    }
  }

  /** The events are callbacks of the records, of different requests. */
  ghost predicate FiredFor(events: seq<Event>, gone: seq<Rec>, entries: map<Rec, Entry>) {
    && (forall e <- events :: exists r :: CallbackOf(e, r, gone, entries))
    && (forall i, j :: 0 <= i < j < |events| ==> events[i].send != events[j].send)
  }

  ghost predicate CallbackOf(e: Event, r: Rec, gone: seq<Rec>, entries: map<Rec, Entry>) {
    r in gone && r in entries && entries[r].send == e.send && HasCallback(entries[r], e.kind)
  }

  /** Callbacks fire for records that stop waiting. */
  lemma FiringStep(s: State, t: State, gone: seq<Rec>, events: seq<Event>)
    requires Faithful(s) && t.sends == s.sends && t.entries == s.entries && t.log == s.log + events
    requires forall r <- gone :: Waits(s.handlers, r) > 0
    requires forall r: Rec :: Waits(t.handlers, r) > 0 ==> Waits(s.handlers, r) > 0 && r !in gone
    requires FiredFor(events, gone, s.entries)
    ensures Faithful(t)
  {
    hide Waits, HasCallback;
    forall e <- events ensures NotLogged(s.log, e.send) && e.send < |s.sends| && HasCallback(s.sends[e.send], e.kind) {
      var r :| CallbackOf(e, r, gone, s.entries);
      assert Own(s, r);
    }
    OnceMore(s.log, events, s.sends);
    forall q: Rec | Waits(t.handlers, q) > 0 ensures Own(t, q) {
      assert Own(s, q);
      forall e <- events ensures e.send != s.entries[q].send {
        var r :| CallbackOf(e, r, gone, s.entries);
      }
    }
  }

  lemma OnceMore(log: seq<Event>, events: seq<Event>, sends: seq<Entry>)
    requires Once(log, sends)
    requires forall e <- events :: NotLogged(log, e.send) && e.send < |sends| && HasCallback(sends[e.send], e.kind)
    requires forall i, j :: 0 <= i < j < |events| ==> events[i].send != events[j].send
    ensures Once(log + events, sends)
  {
    hide HasCallback;
    var all := log + events;
    forall i, j | 0 <= i < j < |all| ensures all[i].send != all[j].send {
      if |log| <= j {
        assert all[j] == events[j - |log|] && all[j] in events;
        if i < |log| {
          assert all[i] in log;
        } else {
          assert all[i] == events[i - |log|];
        }
      }
    }
  }

  /** The events are the discarded callbacks of exactly the records that have one, one for each request. */
  lemma {:induction false} DiscardsFire(queue: seq<Rec>, entries: map<Rec, Entry>)
    requires Known(queue, entries)
    requires forall i, j :: 0 <= i < j < |queue| ==> entries[queue[i]].send != entries[queue[j]].send
    ensures FiredFor(Discards(queue, entries), queue, entries)
    ensures forall r <- queue :: entries[r].discarded ==> Event(entries[r].send, Discarded) in Discards(queue, entries)
    ensures forall e <- Discards(queue, entries) :: e.kind == Discarded
  {
    if queue != [] {
      var first, rest := queue[0], queue[1..];
      DiscardsFire(rest, entries);
      var events := Discards(rest, entries);
      assert queue == [first] + rest;
      forall e <- events ensures e.send != entries[first].send && exists r :: CallbackOf(e, r, queue, entries) {
        var r :| CallbackOf(e, r, rest, entries);
        assert CallbackOf(e, r, queue, entries);
      }
      if entries[first].discarded {
        assert CallbackOf(Event(entries[first].send, Discarded), first, queue, entries);
      }
    }
  }

  lemma {:induction false} DiscardsAppend(a: seq<Rec>, b: seq<Rec>, entries: map<Rec, Entry>)
    requires Known(a, entries) && Known(b, entries)
    ensures Known(a + b, entries) && Discards(a + b, entries) == Discards(a, entries) + Discards(b, entries)
  {
    if a == [] {
      assert a + b == b;
    } else {
      assert (a + b)[1..] == a[1..] + b;
      DiscardsAppend(a[1..], b, entries);
      Assoc(if entries[a[0]].discarded then [Event(entries[a[0]].send, Discarded)] else [],
            Discards(a[1..], entries), Discards(b, entries));
    }
  }

  lemma {:induction false} NoneTwice(q: seq<Rec>)
    requires forall r :: Times(q, r) <= 1
    ensures forall i, j :: 0 <= i < j < |q| ==> q[i] != q[j]
  {
    if q != [] {
      forall r ensures Times(q[1..], r) <= 1 {
        assert Times(q, r) <= 1;
      }
      NoneTwice(q[1..]);
      assert Times(q, q[0]) == 1 + Times(q[1..], q[0]);
      TimesIn(q[1..], q[0]);
      forall i, j | 0 <= i < j < |q| ensures q[i] != q[j] {
        assert q[j] == q[1..][j - 1];
        if i > 0 {
          assert q[i] == q[1..][i - 1];
        }
      }
    }
  }

  lemma BeginFaithful(s: State, step: Step)
    requires step.SendBegin? && Enabled(s, step) && AllKnown(s) && Inv(s)
    ensures Faithful(Next(s, step))
  {
    hide Waits, HasCallback, Conserved, Once;
    var t := Next(s, step);
    var p := if s.pool != [] then s.pool[0] else step.made;
    forall q: Rec ensures Waits(t.handlers, q) > 0 ==> q == p || Waits(s.handlers, q) > 0 {
      BeginPlaces(s, step, q);
    }
    BeginPlaces(s, step, p);
    OnceLonger(s.log, s.sends, t.sends);
    assert NotLogged(s.log, |s.sends|) by { OnceBelow(s.log, s.sends); }
    forall q: Rec | Waits(t.handlers, q) > 0 ensures Own(t, q) && (q != p ==> t.entries[q].send < |s.sends|) {
      if q != p {
        assert Own(s, q);
      }
    }
  }

  lemma OnceLonger(log: seq<Event>, sends: seq<Entry>, more: seq<Entry>)
    requires Once(log, sends) && sends <= more
    ensures Once(log, more)
  {
    hide HasCallback;
  }

  lemma OnceBelow(log: seq<Event>, sends: seq<Entry>)
    requires Once(log, sends)
    ensures NotLogged(log, |sends|)
  {
    hide HasCallback;
  }

  lemma AnswerFaithful(s: State, h: nat, reqId: nat, failed: bool, random: bool)
    requires h < |s.handlers| && Inv(s) && AllKnown(s)
    ensures Faithful(Answer(s, h, reqId, failed, random))
  {
    hide Waits, Matching, Faithful, Conserved;
    var t := Answer(s, h, reqId, failed, random);
    var at := s.handlers[h];
    match Matching(at.queue, s.entries, reqId, random)
    case None =>
    case Some(i) =>
      var r := at.queue[i];
      Queued(s, h, r);
      forall q: Rec ensures Waits(t.handlers, q) > 0 ==> Waits(s.handlers, q) > 0 && q !in [r] {
        AnswerPlaces(s, h, reqId, failed, random, q);
      }
      FiredOnce(s.entries, r, failed);
      FiringStep(s, t, [r], Fired(s.entries[r], failed));
  }

  lemma FiredOnce(entries: map<Rec, Entry>, r: Rec, failed: bool)
    requires r in entries
    ensures FiredFor(Fired(entries[r], failed), [r], entries)
  {
    forall e <- Fired(entries[r], failed) ensures exists q :: CallbackOf(e, q, [r], entries) {
      assert CallbackOf(e, r, [r], entries);
    }
  }

  lemma SweepFaithful(s: State, h: nat)
    requires h < |s.handlers| && Inv(s) && AllKnown(s)
    ensures Faithful(SweepOut(s, h))
  {
    hide Waits, Discards, FiredFor, Faithful, Conserved, Times;
    var t := SweepOut(s, h);
    var at := s.handlers[h];
    var gone := at.batch + at.queue;
    forall q: Rec ensures Waits(t.handlers, q) > 0 ==> Waits(s.handlers, q) > 0 && q !in gone {
      SweepPlaces(s, h, q);
      TimesIn(at.batch, q);
      TimesIn(at.queue, q);
      if q in gone {
        Queued(s, h, q);
      }
    }
    forall r <- gone ensures Waits(s.handlers, r) > 0 {
      Queued(s, h, r);
    }
    DiscardsAppend(at.batch, at.queue, s.entries);
    OwnSends(s, h);
    DiscardsFire(gone, s.entries);
    assert t.log == s.log + Discards(gone, s.entries);
    FiringStep(s, t, gone, Discards(gone, s.entries));
  }

  /** The records of a handler belong to different requests. */
  lemma OwnSends(s: State, h: nat)
    requires h < |s.handlers| && Inv(s)
    ensures var q := s.handlers[h].batch + s.handlers[h].queue;
      Known(q, s.entries) && forall i, j :: 0 <= i < j < |q| ==> s.entries[q[i]].send != s.entries[q[j]].send
  {
    hide Waits, Conserved, Times, Once;
    var at := s.handlers[h];
    var q := at.batch + at.queue;
    forall r ensures Times(q, r) <= 1 {
      TimesAppend(at.batch, at.queue, r);
      WaitsUpdate(s.handlers, h, at, r);
      PlaceOf(s, r);
    }
    NoneTwice(q);
    forall r <- q ensures Waits(s.handlers, r) > 0 && r in s.entries {
      Queued(s, h, r);
    }
    forall i, j | 0 <= i < j < |q| ensures s.entries[q[i]].send != s.entries[q[j]].send {
      assert q[i] in q && q[j] in q;
    }
  }

  lemma MoveFaithful(s: State, step: Step)
    requires Inv(s) && Enabled(s, step) && AllKnown(s)
    requires !step.SendBegin? && !step.Reply? && !step.Sweep?
    ensures Faithful(Next(s, step))
  {
    hide Waits, Faithful, Conserved, PlacedOnce;
    var t := Next(s, step);
    forall r: Rec | Waits(t.handlers, r) > 0
      ensures Waits(s.handlers, r) > 0 && r in t.entries && t.entries[r] == s.entries[r]
    {
      MovePlaces(s, step, r);
      WaitingIsLive(s, r);
      if step.TrimPool? {
        TrimPlaces(s, step.remaining, r);
      }
    }
    QuietStep(s, t);
  }

  lemma WaitingIsLive(s: State, r: Rec)
    requires Conserved(s) && Waits(s.handlers, r) > 0
    ensures r in s.entries
  {
    hide Waits, Times, InBlocks;
    assert PlacedOnce(s, r);
  }

  /** Every step keeps the invariant. */
  lemma StepKeepsInv(s: State, step: Step)
    requires Inv(s) && Enabled(s, step)
    ensures AllKnown(s) && Inv(Next(s, step))
  {
    hide Waits, Faithful, Conserved, AllKnown, Begin, Refuse, Trim, Answer, SweepOut;
    ConservedIsKnown(s);
    StepConserves(s, step);
    if step.SendBegin? {
      BeginFaithful(s, step);
    } else if step.Reply? {
      assert Known(s.handlers[step.h].queue, s.entries) by { KnownAt(s, step.h); }
      AnswerFaithful(s, step.h, step.reqId, step.failed, step.random);
    } else if step.Sweep? {
      KnownAt(s, step.h);
      SweepFaithful(s, step.h);
    } else {
      MoveFaithful(s, step);
    }
  }

  lemma KnownAt(s: State, h: nat)
    requires AllKnown(s) && h < |s.handlers|
    ensures Known(s.handlers[h].queue, s.entries) && Known(s.handlers[h].batch, s.entries)
  {
  }

  function Start(n: nat): State {
    State(seq(n, i => Handler([], [])), [], [], [], map[], multiset{}, [], [])
  }

  lemma {:induction false} NobodyWaits(n: nat, r: Rec)
    ensures Waits(Start(n).handlers, r) == 0
  {
    if n > 0 {
      assert Start(n).handlers[1..] == Start(n - 1).handlers;
      NobodyWaits(n - 1, r);
    }
  }

  lemma {:induction false} RunKeepsInv(s: State, steps: seq<Step>)
    requires Inv(s) && Run(s, steps).Some?
    ensures Inv(Run(s, steps).value)
    decreases |steps|
  {
    hide Next, Enabled, Inv, AllKnown;
    if steps != [] {
      StepKeepsInv(s, steps[0]);
      RunKeepsInv(Next(s, steps[0]), steps[1..]);
    }
  }

  /**
    In every state any run of any number of handlers reaches, each live record is in exactly one
    place; each request has fired at most one of its callbacks, and only one it has; and every
    waiting record holds exactly the callbacks of its own request, none of an earlier one.
  */
  lemma ReachableKeepsInv(n: nat, steps: seq<Step>)
    requires Run(Start(n), steps).Some?
    ensures Inv(Run(Start(n), steps).value)
  {
    hide Run;
    forall r: Rec ensures Waits(Start(n).handlers, r) == 0 {
      NobodyWaits(n, r);
    }
    RunKeepsInv(Start(n), steps);
  }

  /** Nothing but a step that is not enabled can stop a run. */
  lemma NeverStuck(n: nat, steps: seq<Step>)
    requires Run(Start(n), steps).Some?
    ensures AllKnown(Run(Start(n), steps).value)
  {
    hide Run;
    ReachableKeepsInv(n, steps);
    ConservedIsKnown(Run(Start(n), steps).value);
  }

  /** After cleaning, every record that was taken out is in the pool, once, and in no other place. */
  lemma CleaningReturnsAll(s: State, h: nat)
    requires Inv(s) && h < |s.handlers|
    ensures AllKnown(s)
    ensures var s1 := SweepOut(s, h);
      var s2 := Next(s1, PutBack(|s.swept|));
      var t := Next(s2, PutBack(|s.swept|));
      && t.pool == s.pool + s.handlers[h].batch + s.handlers[h].queue
      && t.handlers == s.handlers[h := Handler([], [])] && t.swept == s.swept && t.held == s.held
      && forall r | r in s.handlers[h].batch || r in s.handlers[h].queue :: Places(t, r) == Times(t.pool, r) == 1
  {
    hide Faithful, Conserved, Discards, Places, AllKnown;
    StepKeepsInv(s, Sweep(h));
    KnownAt(s, h);
    var s1 := Next(s, Sweep(h));
    StepKeepsInv(s1, PutBack(|s.swept|));
    var s2 := Next(s1, PutBack(|s.swept|));
    assert s2.swept == s.swept + [s.handlers[h].queue];
    StepKeepsInv(s2, PutBack(|s.swept|));
    var t := Next(s2, PutBack(|s.swept|));
    assert t.swept == s.swept;
    forall r | r in s.handlers[h].batch || r in s.handlers[h].queue ensures Places(t, r) == Times(t.pool, r) == 1 {
      assert r in t.pool;
      PooledOnce(t, r);
    }
  }

  lemma PooledOnce(s: State, r: Rec)
    requires Conserved(s) && r in s.pool
    ensures Places(s, r) == Times(s.pool, r) == 1
  {
    hide Times, Waits, InBlocks;
    assert PlacedOnce(s, r);
    TimesIn(s.pool, r);
  }
}
