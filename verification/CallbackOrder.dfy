/**
  Which record a reply reaches (include/aclientw.cpp). One handler is run against a core that
  puts the requests it takes on the wire in order, keeps back those of an open batch and may
  refuse any of them. A refused request's record is taken out in a step of its own, so it may
  stand in the queue while later requests are sent and answered. Exactly when every reply
  reaches the record of its own request is read off the requests alone.
*/
module CallbackOrder {
  import opened Wrappers
  import opened Callbacks

  /** A request as the core knows it; `Tracked` ones have callbacks and therefore a record. */
  datatype Request = Bare(id: nat) | Tracked(rec: Rec, entry: Entry) {
    function ReqId(): nat {
      if Bare? then id else entry.reqId
    }
  }

  /** `Refused` ones are refused by the core and not yet taken out of the queue. */
  datatype Status = Sent | Undecided | Refused

  datatype Slot = Slot(request: Request, status: Status)

  /**
    A reply that was handled: the requests that stood in line, the place of the one answered, and
    what the record popped for it held.
  */
  datatype Answered = Answered(line: seq<Slot>, i: nat, request: Request,
                               popped: Option<Entry>, events: seq<Event>, failed: bool)

  /**
    `line` and `later` are the requests on the wire and in the open batch, with refused ones at
    the places of their records; `current` is the tracked send the core has not yet decided on.
    None of them depends on which records replies reach. `entered` is the history of what entered
    the callback queue and no refusal took out, `wired` of the tracked requests put on the wire.
  */
  datatype System = System(random: bool, s: State, line: seq<Slot>, later: seq<Slot>, batching: bool,
                           current: Option<Request>, answers: seq<Answered>, entered: seq<Entry>, wired: seq<Entry>)

  datatype Act =
    | Send(reqId: nat, result: bool, discarded: bool, exception: bool, made: Rec)
    | Accept
    | RefuseIt
    | Unqueue(i: nat, inBatch: bool)
    | SendBare(reqId: nat, accepted: bool)
    | StartBatch
    | CommitBatch
    | AbortBatch
    | Respond(i: nat, failed: bool)
    | RecycleOne(i: nat)

  predicate NoneRefused(slots: seq<Slot>) {
    forall x <- slots :: x.status != Refused
  }

  predicate IsRefused(slots: seq<Slot>, i: nat) {
    i < |slots| && slots[i].status == Refused && slots[i].request.Tracked?
  }

  /** In order, the core answers the first request on the wire; in random order, any. */
  ghost predicate Possible(y: System, act: Act) {
    match act
    case Send(reqId, result, discarded, exception, made) =>
      (result || discarded || exception) && made !in y.s.entries && y.current.None?
    case Accept => y.current.Some?
    case RefuseIt => y.current.Some?
    case Unqueue(i, inBatch) => IsRefused(if inBatch then y.later else y.line, i)
    case SendBare(_, _) => true
    case StartBatch => !y.batching && y.current.None?
    case CommitBatch => y.batching && y.current.None? && NoneRefused(y.later)
    case AbortBatch => y.batching && y.current.None? && NoneRefused(y.later)
    case Respond(i, _) =>
      i < |y.line| && y.line[i].status == Sent && (!y.random ==> forall j :: 0 <= j < i ==> y.line[j].status != Sent)
    case RecycleOne(i) => i < |y.s.held|
  }

  ghost predicate OneHandler(s: State) {
    |s.handlers| == 1 && Inv(s)
  }

  /** A request takes its place on the wire, or in the open batch. */
  function Join(y: System, x: Slot): System {
    if y.batching then y.(later := y.later + [x]) else y.(line := y.line + [x])
  }

  /** What the tracked requests among the slots hold. */
  function Entries(slots: seq<Slot>): seq<Entry> {
    if slots == [] then []
    else (if slots[0].request.Tracked? then [slots[0].request.entry] else []) + Entries(slots[1..])
  }

  /** What the records of a queue hold. */
  function HeldBy(queue: seq<Rec>, entries: map<Rec, Entry>): seq<Entry>
    requires Known(queue, entries)
  {
    if queue == [] then [] else [entries[queue[0]]] + HeldBy(queue[1..], entries)
  }

  function Dropped(es: seq<Entry>, send: nat): seq<Entry> {
    if es == [] then []
    else (if es[0].send == send then [] else [es[0]]) + Dropped(es[1..], send)
  }

  function Started(y: System, act: Act): Request
    requires act.Send?
  {
    Tracked(if y.s.pool != [] then y.s.pool[0] else act.made,
            Entry(|y.s.sends|, act.reqId, act.result, act.discarded, act.exception))
  }

  ghost function Do(y: System, act: Act): System
    requires Possible(y, act) && OneHandler(y.s)
  {
    ConservedIsKnown(y.s);
    match act
    case Send(reqId, result, discarded, exception, made) =>
      var r := Started(y, act);
      y.(s := Next(y.s, SendBegin(0, reqId, result, discarded, exception, y.batching, made)), current := Some(r),
         entered := if y.batching then y.entered else y.entered + [r.entry])
    case Accept =>
      Join(y, Slot(y.current.value, Sent))
        .(current := None, wired := if y.batching then y.wired else y.wired + Entries([Slot(y.current.value, Sent)]))
    case RefuseIt => Join(y, Slot(y.current.value, Refused)).(current := None)
    case Unqueue(i, inBatch) => Unqueued1(y, i, inBatch)
    case SendBare(reqId, accepted) => if accepted then Join(y, Slot(Bare(reqId), Sent)) else y
    case StartBatch => y.(batching := true)
    case CommitBatch =>
      y.(s := Next(y.s, Commit(0)), line := y.line + y.later, later := [], batching := false,
         entered := y.entered + HeldBy(y.s.handlers[0].batch, y.s.entries), wired := y.wired + Entries(y.later))
    case AbortBatch => y.(s := Next(y.s, Abort(0)), later := [], batching := false)
    case Respond(i, failed) => Reacted(y, i, failed)
    case RecycleOne(i) => y.(s := Next(y.s, Recycle(i)))
  }

  /** The record of a refused request is looked for where it was queued, and recycled if it is found. */
  ghost function Unqueued1(y: System, i: nat, inBatch: bool): System
    requires IsRefused(if inBatch then y.later else y.line, i) && OneHandler(y.s)
  {
    var slots := if inBatch then y.later else y.line;
    var r := slots[i].request.rec;
    var t := y.(s := Refuse(y.s, Pending(0, r, inBatch)));
    if inBatch then t.(later := Without(slots, i))
    else
      t.(line := Without(slots, i),
         entered := if r in y.s.handlers[0].queue && r in y.s.entries then Dropped(y.entered, y.s.entries[r].send)
                    else y.entered)
  }

  /** The reply to the request at place i of the line is handled. */
  ghost function Reacted(y: System, i: nat, failed: bool): System
    requires i < |y.line| && OneHandler(y.s) && AllKnown(y.s)
  {
    var request := y.line[i].request;
    var queue := y.s.handlers[0].queue;
    var m := Matching(queue, y.s.entries, request.ReqId(), y.random);
    var popped := if m.Some? then Some(y.s.entries[queue[m.value]]) else None;
    var events := if m.Some? then Fired(popped.value, failed) else [];
    y.(s := Next(y.s, Reply(0, request.ReqId(), failed, y.random)), line := Without(y.line, i),
       answers := y.answers + [Answered(InLine(y), i, request, popped, events, failed)])
  }

  /** The requests whose records stand in the callback queue when all has gone well. */
  function InLine(y: System): seq<Slot> {
    y.line + if y.current.Some? && !y.batching then [Slot(y.current.value, Undecided)] else []
  }

  function InBatch(y: System): seq<Slot> {
    y.later + if y.current.Some? && y.batching then [Slot(y.current.value, Undecided)] else []
  }

  ghost function RunAll(y: System, acts: seq<Act>): Option<System>
    decreases |acts|
  {
    if acts == [] then Some(y)
    else if OneHandler(y.s) && Possible(y, acts[0]) then RunAll(Do(y, acts[0]), acts[1..])
    else None
  }

  function Fresh(random: bool): System {
    System(random, Start(1), [], [], false, None, [], [], [])
  }

  // Right and wrong replies

  /** The reply reached what its own request's record holds, or none if it has none, and fired that callback. */
  predicate Reaches(own: Option<Entry>, popped: Option<Entry>, events: seq<Event>, failed: bool) {
    popped == own && events == if own.Some? then Fired(own.value, failed) else []
  }

  predicate Right(a: Answered) {
    Reaches(if a.request.Tracked? then Some(a.request.entry) else None, a.popped, a.events, a.failed)
  }

  /** The slot is the first one with a record. */
  ghost predicate Leads(line: seq<Slot>, j: nat) {
    j < |line| && line[j].request.Tracked? && forall h :: 0 <= h < j ==> line[h].request.Bare?
  }

  /**
    No other request was in the way. In order: a request with a record stood first of those with
    one, and the first of those had another id than a request without. In random order: the same
    among the requests of that id.
  */
  ghost predicate Unobstructed(a: Answered, random: bool) {
    var id := a.request.ReqId();
    if a.request.Bare? then
      if random then forall x <- a.line :: x.request.Tracked? ==> x.request.ReqId() != id
      else forall j: nat :: Leads(a.line, j) ==> a.line[j].request.ReqId() != id
    else InTurn(a, random)
  }

  ghost predicate InTurn(a: Answered, random: bool) {
    a.i <= |a.line| &&
    forall j :: 0 <= j < a.i && a.line[j].request.Tracked? ==> random && a.line[j].request.ReqId() != a.request.ReqId()
  }

  predicate AllRight(answers: seq<Answered>) {
    forall a <- answers :: Right(a)
  }

  ghost predicate AllUnobstructed(answers: seq<Answered>, random: bool) {
    forall a <- answers :: Unobstructed(a, random)
  }

  function Recs(slots: seq<Slot>): seq<Rec> {
    if slots == [] then []
    else (if slots[0].request.Tracked? then [slots[0].request.rec] else []) + Recs(slots[1..])
  }

  ghost predicate Holds(s: State, x: Slot) {
    x.request.Tracked? ==> x.request.rec in s.entries && s.entries[x.request.rec] == x.request.entry
  }

  ghost predicate HoldAll(s: State, slots: seq<Slot>) {
    forall x <- slots :: Holds(s, x)
  }

  /** The queues are the records of the requests in line, in the same order, and each holds its own request. */
  ghost predicate InStep(y: System) {
    && |y.s.handlers| == 1
    && y.s.handlers[0] == Handler(Recs(InLine(y)), Recs(InBatch(y)))
    && HoldAll(y.s, InLine(y)) && HoldAll(y.s, InBatch(y))
    && (!y.batching ==> y.later == [])
    && (y.current.Some? ==> y.current.value.Tracked?)
  }

  ghost predicate Exact(y: System) {
    && OneHandler(y.s)
    && (if AllUnobstructed(y.answers, y.random) then InStep(y) && AllRight(y.answers) else !AllRight(y.answers))
  }

  // The record a reply pops

  /** The slot whose record a reply finds. */
  function Find(slots: seq<Slot>, id: nat, random: bool): (k: Option<nat>)
    ensures k.Some? ==> k.value < |slots| && slots[k.value].request.Tracked? && slots[k.value].request.ReqId() == id
  {
    if slots == [] then None
    else if slots[0].request.Tracked? && slots[0].request.ReqId() == id then Some(0)
    else if slots[0].request.Tracked? && !random then None
    else
      match Find(slots[1..], id, random)
      case None => None
      case Some(k) => Some(k + 1)
  }

  lemma {:induction false} FindsTarget(slots: seq<Slot>, i: nat, random: bool)
    requires i < |slots| && slots[i].request.Tracked?
    ensures var id := slots[i].request.ReqId();
      Find(slots, id, random) == Some(i)
      <==> forall j :: 0 <= j < i && slots[j].request.Tracked? ==> random && slots[j].request.ReqId() != id
  {
    if i > 0 {
      var rest := slots[1..];
      FindsTarget(rest, i - 1, random);
      assert forall j :: 0 < j < i ==> rest[j - 1] == slots[j];
      assert forall j :: 0 <= j < i - 1 ==> rest[j] == slots[j + 1];
    }
  }

  lemma {:induction false} FindsNone(slots: seq<Slot>, id: nat, random: bool)
    ensures Find(slots, id, random) == None <==>
      if random then forall x <- slots :: x.request.Tracked? ==> x.request.ReqId() != id
      else forall j: nat :: Leads(slots, j) ==> slots[j].request.ReqId() != id
  {
    if slots != [] {
      var rest := slots[1..];
      assert slots == [slots[0]] + rest;
      FindsNone(rest, id, random);
      if slots[0].request.Tracked? {
        assert Leads(slots, 0);
      } else if !random {
        LeadsRest(slots);
      }
    }
  }

  lemma LeadsRest(slots: seq<Slot>)
    requires slots != [] && slots[0].request.Bare?
    ensures forall j: nat :: Leads(slots, j) ==> j > 0 && Leads(slots[1..], j - 1) && slots[1..][j - 1] == slots[j]
    ensures forall j: nat :: Leads(slots[1..], j) ==> Leads(slots, j + 1) && slots[1..][j] == slots[j + 1]
  {
    var rest := slots[1..];
    forall j: nat | Leads(slots, j) ensures j > 0 && Leads(rest, j - 1) && rest[j - 1] == slots[j] {
      assert forall h :: 0 <= h < j - 1 ==> rest[h] == slots[h + 1];
    }
    forall j: nat | Leads(rest, j) ensures Leads(slots, j + 1) && rest[j] == slots[j + 1] {
      assert forall h :: 0 < h < j + 1 ==> rest[h - 1] == slots[h];
    }
  }

  lemma HoldsRest(s: State, x: Slot, rest: seq<Slot>)
    ensures HoldAll(s, [x] + rest) <==> Holds(s, x) && HoldAll(s, rest)
  {
    assert ([x] + rest)[0] == x && forall z <- [x] + rest :: z == x || z in rest;
    assert forall z <- rest :: z in [x] + rest;
  }

  function Later(k: Option<nat>): Option<nat> {
    if k.Some? then Some(k.value + 1) else None
  }

  /** The slot found has the record found, which holds its request, and both are followed by the same. */
  ghost predicate FoundTogether(s: State, slots: seq<Slot>, queue: seq<Rec>, k: Option<nat>, m: Option<nat>) {
    && (k.None? <==> m.None?)
    && (k.Some? && m.Some? ==>
          && k.value < |slots| && m.value < |queue| && slots[k.value].request.Tracked?
          && queue[m.value] == slots[k.value].request.rec && Holds(s, slots[k.value])
          && Without(queue, m.value) == Recs(Without(slots, k.value)))
  }

  lemma RecsCons(x: Slot, rest: seq<Slot>)
    ensures Recs([x] + rest) == (if x.request.Tracked? then [x.request.rec] else []) + Recs(rest)
  {
    assert ([x] + rest)[1..] == rest;
  }

  lemma PassBare(s: State, x: Slot, rest: seq<Slot>, queue: seq<Rec>, k: Option<nat>, m: Option<nat>)
    requires x.request.Bare? && FoundTogether(s, rest, queue, k, m)
    ensures FoundTogether(s, [x] + rest, queue, Later(k), m)
  {
    hide Recs, Holds, Without;
    if k.Some? {
      WithoutLater(x, rest, k.value);
      RecsCons(x, Without(rest, k.value));
      assert [] + Recs(Without(rest, k.value)) == Recs(Without(rest, k.value));
    }
  }

  lemma PassTracked(s: State, x: Slot, rest: seq<Slot>, queue: seq<Rec>, k: Option<nat>, m: Option<nat>)
    requires x.request.Tracked? && FoundTogether(s, rest, queue, k, m)
    ensures FoundTogether(s, [x] + rest, [x.request.rec] + queue, Later(k), Later(m))
  {
    hide Recs, Holds, Without;
    if k.Some? {
      WithoutLater(x, rest, k.value);
      WithoutLater(x.request.rec, queue, m.value);
      RecsCons(x, Without(rest, k.value));
    }
  }

  lemma FindCons(x: Slot, rest: seq<Slot>, id: nat, random: bool)
    ensures Find([x] + rest, id, random)
         == if x.request.Tracked? && x.request.ReqId() == id then Some(0)
            else if x.request.Tracked? && !random then None
            else Later(Find(rest, id, random))
  {
    assert ([x] + rest)[1..] == rest;
  }

  lemma MatchingCons(r: Rec, rest: seq<Rec>, entries: map<Rec, Entry>, id: nat, random: bool)
    requires Known([r] + rest, entries)
    ensures r in entries && Known(rest, entries)
    ensures Matching([r] + rest, entries, id, random)
         == if entries[r].reqId == id then Some(0) else if !random then None else Later(Matching(rest, entries, id, true))
  {
    assert ([r] + rest)[1..] == rest && ([r] + rest)[0] == r;
    assert forall x <- rest :: x in [r] + rest;
  }

  lemma PopsHead(s: State, x: Slot, rest: seq<Slot>)
    requires x.request.Tracked? && Holds(s, x)
    ensures FoundTogether(s, [x] + rest, [x.request.rec] + Recs(rest), Some(0), Some(0))
  {
    hide Recs;
    assert Without([x] + rest, 0) == rest && Without([x.request.rec] + Recs(rest), 0) == Recs(rest);
  }

  lemma NoneFound(s: State, slots: seq<Slot>, queue: seq<Rec>)
    ensures FoundTogether(s, slots, queue, None, None)
  {
  }

  /** Searching the queue is searching the line. */
  lemma {:induction false} PopsFound(s: State, slots: seq<Slot>, queue: seq<Rec>, id: nat, random: bool)
    requires queue == Recs(slots) && Known(queue, s.entries) && HoldAll(s, slots)
    ensures FoundTogether(s, slots, queue, Find(slots, id, random), Matching(queue, s.entries, id, random))
    decreases |slots|
  {
    if slots == [] {
      NoneFound(s, slots, queue);
    } else {
      hide FoundTogether, Find, Matching, Recs, HoldAll, Known;
      var x, rest := slots[0], slots[1..];
      assert slots == [x] + rest;
      HoldsRest(s, x, rest);
      RecsCons(x, rest);
      FindCons(x, rest, id, random);
      if x.request.Bare? {
        assert [] + Recs(rest) == Recs(rest);
        PopsFound(s, rest, queue, id, random);
        PassBare(s, x, rest, queue, Find(rest, id, random), Matching(queue, s.entries, id, random));
      } else {
        MatchingCons(x.request.rec, Recs(rest), s.entries, id, random);
        PopsHead(s, x, rest);
        PopsFound(s, rest, Recs(rest), id, true);
        PassTracked(s, x, rest, Recs(rest), Find(rest, id, true), Matching(Recs(rest), s.entries, id, true));
        NoneFound(s, slots, queue);
      }
    }
  }

  lemma WithoutLater<T>(x: T, rest: seq<T>, k: nat)
    requires k < |rest|
    ensures Without([x] + rest, k + 1) == [x] + Without(rest, k)
  {
    assert ([x] + rest)[..k + 1] == [x] + rest[..k] && ([x] + rest)[k + 2..] == rest[k + 1..];
  }

  // Every act keeps the queues in step with the line

  lemma {:induction false} RecsAppend(a: seq<Slot>, b: seq<Slot>)
    ensures Recs(a + b) == Recs(a) + Recs(b)
  {
    if a == [] {
      assert a + b == b;
    } else {
      assert (a + b)[1..] == a[1..] + b;
      RecsAppend(a[1..], b);
      Assoc(if a[0].request.Tracked? then [a[0].request.rec] else [], Recs(a[1..]), Recs(b));
    }
  }

  lemma RecsOne(x: Slot)
    ensures Recs([x]) == (if x.request.Tracked? then [x.request.rec] else []) && Recs([]) == []
  {
    assert [x][1..] == [];
  }

  /** Adding one request behind a line. */
  lemma RecsPush(a: seq<Slot>, x: Slot)
    ensures Recs(a + [x]) == Recs(a) + (if x.request.Tracked? then [x.request.rec] else []) && a + [] == a
  {
    RecsAppend(a, [x]);
    RecsOne(x);
  }

  lemma {:induction false} RecsHas(slots: seq<Slot>, x: Slot)
    requires x in slots && x.request.Tracked?
    ensures x.request.rec in Recs(slots)
  {
    if slots[0] != x {
      assert x in slots[1..];
      RecsHas(slots[1..], x);
    }
  }

  /** Records that keep waiting keep what they hold. */
  lemma HoldsStill(s: State, t: State, slots: seq<Slot>)
    requires HoldAll(s, slots)
    requires forall r <- Recs(slots) :: r in s.entries ==> r in t.entries && t.entries[r] == s.entries[r]
    ensures HoldAll(t, slots)
  {
    forall x <- slots ensures Holds(t, x) {
      assert Holds(s, x);
      if x.request.Tracked? {
        RecsHas(slots, x);
      }
    }
  }

  lemma HoldsJoin(s: State, a: seq<Slot>, b: seq<Slot>)
    ensures HoldAll(s, a + b) <==> HoldAll(s, a) && HoldAll(s, b)
  {
    assert forall x <- a :: x in a + b;
    assert forall x <- b :: x in a + b;
  }

  lemma HoldsOne(s: State, x: Slot)
    ensures HoldAll(s, [x]) <==> Holds(s, x)
  {
    assert x in [x];
  }

  lemma InvConserves(s: State)
    requires Inv(s)
    ensures Conserved(s)
  {
  }

  /** The record a send takes was not queued. */
  lemma PoolIsNotQueued(s: State, p: Rec, made: Rec)
    requires OneHandler(s) && made !in s.entries && p == if s.pool != [] then s.pool[0] else made
    ensures p !in s.handlers[0].queue && p !in s.handlers[0].batch
  {
    hide Conserved, Faithful;
    if p in s.handlers[0].queue || p in s.handlers[0].batch {
      Queued(s, 0, p);
    }
  }

  lemma SendInStep(y: System, act: Act)
    requires act.Send? && Possible(y, act) && OneHandler(y.s) && InStep(y)
    ensures InStep(Do(y, act))
  {
    hide Inv, HoldAll, Recs;
    var z := Do(y, act);
    var at := y.s.handlers[0];
    var x := Slot(z.current.value, Undecided);
    var p := x.request.rec;
    assert p !in at.queue && p !in at.batch by { PoolIsNotQueued(y.s, p, act.made); }
    RecsPush(y.line, x);
    RecsPush(y.later, x);
    HoldsStill(y.s, z.s, y.line);
    HoldsStill(y.s, z.s, y.later);
    HoldsJoin(z.s, y.line, [x]);
    HoldsJoin(z.s, y.later, [x]);
    HoldsOne(z.s, x);
  }

  /** The core's decision changes what the current request is called, not where its record is. */
  lemma DecisionInStep(y: System, act: Act)
    requires (act.Accept? || act.RefuseIt?) && Possible(y, act) && OneHandler(y.s) && InStep(y)
    ensures InStep(Do(y, act))
  {
    hide Inv, HoldAll, Recs;
    var before := Slot(y.current.value, Undecided);
    var after := Slot(y.current.value, if act.Accept? then Sent else Refused);
    Renamed(y.s, y.line, before, after);
    Renamed(y.s, y.later, before, after);
    assert y.line + [after] + [] == y.line + [after] && y.later + [after] + [] == y.later + [after];
    assert y.line + [] == y.line && y.later + [] == y.later;
  }

  lemma Renamed(s: State, a: seq<Slot>, x: Slot, x': Slot)
    requires x.request == x'.request
    ensures Recs(a + [x]) == Recs(a + [x'])
    ensures HoldAll(s, a + [x]) ==> HoldAll(s, a + [x'])
  {
    RecsPush(a, x);
    RecsPush(a, x');
    HoldsJoin(s, a, [x]);
    HoldsJoin(s, a, [x']);
    HoldsOne(s, x);
    HoldsOne(s, x');
  }

  /** A request without a record goes before an undecided one. */
  lemma BareInStep(y: System, act: Act)
    requires act.SendBare? && OneHandler(y.s) && InStep(y)
    ensures InStep(Do(y, act))
  {
    hide Inv, Recs, HoldAll;
    if act.accepted {
      var b := Slot(Bare(act.reqId), Sent);
      var z := Do(y, act);
      BareBetween(y.s, y.line, b, InLine(y)[|y.line|..]);
      BareBetween(y.s, y.later, b, InBatch(y)[|y.later|..]);
    }
  }

  lemma BareBetween(s: State, a: seq<Slot>, b: Slot, c: seq<Slot>)
    requires b.request.Bare?
    ensures Recs(a + [b] + c) == Recs(a + c)
    ensures HoldAll(s, a + c) ==> HoldAll(s, a + [b] + c)
  {
    hide Recs;
    RecsAppend(a + [b], c);
    RecsPush(a, b);
    RecsAppend(a, c);
    assert Recs(a) + [] == Recs(a);
    assert forall x <- a + [b] + c :: x == b || x in a + c;
  }

  lemma BatchInStep(y: System, act: Act)
    requires (act.StartBatch? || act.CommitBatch? || act.AbortBatch?) && Possible(y, act) && OneHandler(y.s) && InStep(y)
    ensures InStep(Do(y, act))
  {
    hide Inv, Recs, HoldAll;
    var z := Do(y, act);
    RecsAppend(y.line, y.later);
    HoldsJoin(y.s, y.line, y.later);
    assert y.line + [] == y.line && y.later + [] == y.later;
    assert z.line + [] == z.line && z.later + [] == z.later;
    NoSlots(z.s);
    HoldsStill(y.s, z.s, z.line);
  }

  lemma NoSlots(s: State)
    ensures Recs([]) == [] && HoldAll(s, []) && Entries([]) == []
  {
  }

  lemma RecyclingInStep(y: System, i: nat)
    requires i < |y.s.held| && OneHandler(y.s) && InStep(y)
    ensures InStep(Do(y, RecycleOne(i)))
  {
    hide Inv, Recs;
  }

  lemma SlotTakenOut(slots: seq<Slot>, i: nat, tail: seq<Slot>)
    requires i < |slots| && slots[i].request.Tracked?
    ensures Recs(slots + tail) == Recs(slots[..i]) + [slots[i].request.rec] + Recs(slots[i + 1..] + tail)
    ensures Recs(Without(slots, i) + tail) == Recs(slots[..i]) + Recs(slots[i + 1..] + tail)
  {
    hide Recs;
    var a, x, b := slots[..i], slots[i], slots[i + 1..];
    assert slots + tail == a + [x] + (b + tail);
    RecsAppend(a + [x], b + tail);
    RecsPush(a, x);
    assert Without(slots, i) + tail == a + (b + tail);
    RecsAppend(a, b + tail);
  }

  lemma FoundInMiddle(a: seq<Rec>, r: Rec, b: seq<Rec>)
    requires Times(a + [r] + b, r) <= 1
    ensures LastOf(a + [r] + b, r) == Some(|a|) && Without(a + [r] + b, |a|) == a + b
  {
    hide Times;
    var q := a + [r] + b;
    TimesAppend(a + [r], b, r);
    TimesAppend(a, [r], r);
    TimesOne(r, r);
    TimesIn(a, r);
    TimesIn(b, r);
    var i := LastOf(q, r);
    assert r in q by { assert q[|a|] == r; }
    assert forall k :: 0 <= k < |a| ==> q[k] == a[k];
    assert forall k :: |a| < k < |q| ==> q[k] == b[k - |a| - 1];
    assert Without(q, |a|) == a + b;
  }

  lemma WaitsOnce(s: State, r: Rec)
    requires OneHandler(s)
    ensures Times(s.handlers[0].queue, r) + Times(s.handlers[0].batch, r) <= 1
  {
    hide Times, InBlocks;
    assert PlacedOnce(s, r);
    WaitsUpdate(s.handlers, 0, s.handlers[0], r);
  }

  lemma UnqueueInStep(y: System, act: Act)
    requires act.Unqueue? && Possible(y, act) && OneHandler(y.s) && InStep(y)
    ensures InStep(Do(y, act))
  {
    hide Inv, Recs, HoldAll, Times, LastOf, Without;
    var Unqueue(i, inBatch) := act;
    var z := Do(y, act);
    var slots := if inBatch then y.later else y.line;
    var tail := if inBatch then InBatch(y)[|y.later|..] else InLine(y)[|y.line|..];
    var r := slots[i].request.rec;
    SlotTakenOut(slots, i, tail);
    assert slots + tail == if inBatch then InBatch(y) else InLine(y);
    WaitsOnce(y.s, r);
    FoundInMiddle(Recs(slots[..i]), r, Recs(slots[i + 1..] + tail));
    HoldsWithout(y.s, slots, i, tail);
    HoldsStill(y.s, z.s, InLine(z));
    HoldsStill(y.s, z.s, InBatch(z));
    assert Without(slots, i) + tail == if inBatch then InBatch(z) else InLine(z);
  }

  lemma HoldsWithout(s: State, slots: seq<Slot>, i: nat, tail: seq<Slot>)
    requires i < |slots| && HoldAll(s, slots + tail)
    ensures HoldAll(s, Without(slots, i) + tail)
  {
    assert forall x <- Without(slots, i) + tail :: x in slots + tail;
  }

  // Replies

  lemma {:induction false} TwiceInRecs(slots: seq<Slot>, i: nat, j: nat)
    requires i < j < |slots| && slots[i].request.Tracked? && slots[j].request.Tracked?
    requires slots[i].request.rec == slots[j].request.rec
    ensures Times(Recs(slots), slots[i].request.rec) >= 2
  {
    hide Times, Recs;
    var r := slots[i].request.rec;
    var none: seq<Slot> := [];
    assert slots + none == slots && slots[i + 1..] + none == slots[i + 1..];
    SlotTakenOut(slots, i, none);
    var a, b := Recs(slots[..i]), Recs(slots[i + 1..]);
    TimesAppend(a + [r], b, r);
    TimesAppend(a, [r], r);
    TimesOne(r, r);
    assert slots[j] in slots[i + 1..] by { assert slots[i + 1..][j - i - 1] == slots[j]; }
    RecsHas(slots[i + 1..], slots[j]);
    TimesIn(b, r);
  }

  /** Different requests in line hold different entries. */
  lemma EntriesDiffer(y: System, i: nat, j: nat)
    requires OneHandler(y.s) && InStep(y) && i < j < |InLine(y)|
    requires InLine(y)[i].request.Tracked? && InLine(y)[j].request.Tracked?
    ensures InLine(y)[i].request.entry != InLine(y)[j].request.entry
  {
    hide Conserved, Recs, Once;
    var slots := InLine(y);
    var p, q := slots[i].request.rec, slots[j].request.rec;
    if p == q {
      TwiceInRecs(slots, i, j);
      WaitsOnce(y.s, p);
      assert false;
    }
    RecsHas(slots, slots[i]);
    RecsHas(slots, slots[j]);
    Queued(y.s, 0, p);
    Queued(y.s, 0, q);
    assert Holds(y.s, slots[i]) && Holds(y.s, slots[j]);
  }

  lemma FindIsUnobstructed(a: Answered, random: bool)
    requires a.i < |a.line| && a.line[a.i].request == a.request
    ensures var k := Find(a.line, a.request.ReqId(), random);
      Unobstructed(a, random) <==> if a.request.Bare? then k == None else k == Some(a.i)
  {
    hide Find;
    if a.request.Bare? {
      FindsNone(a.line, a.request.ReqId(), random);
    } else {
      FindsTarget(a.line, a.i, random);
    }
  }

  /** What a reply pops, in the terms of the line. */
  lemma Pops(y: System, i: nat, failed: bool)
    requires OneHandler(y.s) && InStep(y) && i < |y.line|
    ensures AllKnown(y.s)
    ensures var z := Reacted(y, i, failed);
      var line, a := InLine(y), z.answers[|y.answers|];
      var k := Find(line, y.line[i].request.ReqId(), y.random);
      && z.answers == y.answers + [a] && a.line == line && a.i == i && a.request == y.line[i].request == line[i].request
      && z.s.entries == y.s.entries && |z.s.handlers| == 1 && z.s.handlers[0].batch == y.s.handlers[0].batch
      && a.popped == (if k.Some? then Some(line[k.value].request.entry) else None)
      && a.events == (if k.Some? then Fired(line[k.value].request.entry, failed) else []) && a.failed == failed
      && z.s.handlers[0].queue == (if k.Some? then Recs(Without(line, k.value)) else Recs(line))
  {
    hide Inv, Find, Matching, Recs, HoldAll, Fired, Without;
    InvConserves(y.s);
    ConservedIsKnown(y.s);
    KnownAt(y.s, 0);
    PopsFound(y.s, InLine(y), y.s.handlers[0].queue, y.line[i].request.ReqId(), y.random);
  }

  /** A reply is right if and only if it is unobstructed, and then the queues stay in step. */
  lemma RightExactly(y: System, i: nat, failed: bool)
    requires OneHandler(y.s) && InStep(y) && Possible(y, Respond(i, failed))
    ensures AllKnown(y.s)
    ensures var z := Reacted(y, i, failed);
      && z.answers == y.answers + [z.answers[|y.answers|]]
      && (Right(z.answers[|y.answers|]) <==> Unobstructed(z.answers[|y.answers|], y.random))
      && (Unobstructed(z.answers[|y.answers|], y.random) ==> InStep(z))
  {
    hide Inv, Recs, HoldAll, Fired, Find, Unobstructed, Without, Reacted;
    Pops(y, i, failed);
    var z := Reacted(y, i, failed);
    var line, a := InLine(y), z.answers[|y.answers|];
    FindIsUnobstructed(a, y.random);
    var k := Find(line, a.request.ReqId(), y.random);
    if a.request.Tracked? && k.Some? && k.value != i {
      EntriesDiffer(y, if i < k.value then i else k.value, if i < k.value then k.value else i);
    }
    if Unobstructed(a, y.random) {
      ReplyInStep(y, i, failed);
    }
  }

  lemma ReplyInStep(y: System, i: nat, failed: bool)
    requires OneHandler(y.s) && InStep(y) && i < |y.line| && AllKnown(y.s)
    requires Find(InLine(y), y.line[i].request.ReqId(), y.random) == if y.line[i].request.Bare? then None else Some(i)
    ensures InStep(Reacted(y, i, failed))
  {
    hide Inv, Recs, HoldAll, Fired, Find, Without;
    Pops(y, i, failed);
    var z := Reacted(y, i, failed);
    var tail := InLine(y)[|y.line|..];
    assert InLine(y) == y.line + tail && InLine(z) == Without(y.line, i) + tail;
    WithoutBefore(y.line, i, tail);
    HoldsWithout(y.s, y.line, i, tail);
    if y.line[i].request.Bare? {
      BareAdded(y.line, i, tail);
    }
    HoldsStill(y.s, z.s, InLine(z));
    HoldsStill(y.s, z.s, InBatch(z));
    assert z.s.handlers == [z.s.handlers[0]];
  }

  lemma WithoutBefore<T>(s: seq<T>, i: nat, tail: seq<T>)
    requires i < |s|
    ensures Without(s + tail, i) == Without(s, i) + tail
  {
    assert (s + tail)[..i] == s[..i] && (s + tail)[i + 1..] == s[i + 1..] + tail;
  }

  lemma BareAdded(slots: seq<Slot>, i: nat, tail: seq<Slot>)
    requires i < |slots| && slots[i].request.Bare?
    ensures Recs(slots + tail) == Recs(Without(slots, i) + tail)
  {
    hide Recs;
    var a, b := slots[..i], slots[i + 1..];
    assert slots + tail == a + [slots[i]] + (b + tail) && Without(slots, i) + tail == a + (b + tail);
    RecsAppend(a + [slots[i]], b + tail);
    RecsPush(a, slots[i]);
    RecsAppend(a, b + tail);
    assert Recs(a) + [] == Recs(a);
  }

  lemma HandlerKept(s: State, step: Step)
    requires OneHandler(s) && AllKnown(s) && Enabled(s, step)
    ensures OneHandler(Next(s, step))
  {
    hide Inv;
    StepKeepsInv(s, step);
  }

  /** The handler's own invariant is kept by every act. */
  lemma DoKeepsInv(y: System, act: Act)
    requires Possible(y, act) && OneHandler(y.s)
    ensures OneHandler(Do(y, act).s) && Do(y, act).random == y.random
  {
    hide Inv, Refuse, Begin, Answer, Next;
    InvConserves(y.s);
    ConservedIsKnown(y.s);
    match act
    case Send(reqId, result, discarded, exception, made) =>
      HandlerKept(y.s, SendBegin(0, reqId, result, discarded, exception, y.batching, made));
    case Unqueue(i, inBatch) =>
      var p := Pending(0, (if inBatch then y.later else y.line)[i].request.rec, inBatch);
      RefusedInv(y.s, p);
    case CommitBatch => HandlerKept(y.s, Commit(0));
    case AbortBatch => HandlerKept(y.s, Abort(0));
    case Respond(i, failed) => HandlerKept(y.s, Reply(0, y.line[i].request.ReqId(), failed, y.random));
    case RecycleOne(i) => HandlerKept(y.s, Recycle(i));
    case _ =>
  }

  lemma RefusedInv(s: State, p: Pending)
    requires Inv(s) && p.h < |s.handlers|
    ensures Inv(Refuse(s, p)) && |Refuse(s, p).handlers| == |s.handlers|
  {
    hide Waits, Faithful, PlacedOnce;
    var t := Refuse(s, p);
    forall r: Rec ensures PlacedOnce(t, r) && (Waits(t.handlers, r) > 0 ==> Waits(s.handlers, r) > 0) {
      RefusePlaces(s, p, r);
    }
    forall r: Rec | Waits(s.handlers, r) > 0 ensures r in s.entries {
      WaitingIsLive(s, r);
    }
    QuietStep(s, t);
  }

  lemma ActInStep(y: System, act: Act)
    requires Possible(y, act) && OneHandler(y.s) && InStep(y) && !act.Respond?
    ensures InStep(Do(y, act)) && Do(y, act).answers == y.answers
  {
    hide Inv, InStep;
    match act
    case Send(_, _, _, _, _) => SendInStep(y, act);
    case Accept => DecisionInStep(y, act);
    case RefuseIt => DecisionInStep(y, act);
    case Unqueue(_, _) => UnqueueInStep(y, act);
    case SendBare(_, _) => BareInStep(y, act);
    case RecycleOne(i) => RecyclingInStep(y, i);
    case _ => BatchInStep(y, act);
  }

  lemma AnswersKept(y: System, act: Act)
    requires Possible(y, act) && OneHandler(y.s) && !act.Respond?
    ensures Do(y, act).answers == y.answers
  {
    hide Inv;
  }

  lemma OneMoreAnswer(answers: seq<Answered>, a: Answered, random: bool)
    ensures AllRight(answers + [a]) <==> AllRight(answers) && Right(a)
    ensures AllUnobstructed(answers + [a], random) <==> AllUnobstructed(answers, random) && Unobstructed(a, random)
  {
    hide Right, Unobstructed;
    assert a in answers + [a];
    assert forall x <- answers :: x in answers + [a];
  }

  lemma DoKeepsExact(y: System, act: Act)
    requires Possible(y, act) && Exact(y)
    ensures Exact(Do(y, act))
  {
    hide InStep, AllRight, AllUnobstructed, Right, Unobstructed, Inv, Reacted;
    DoKeepsInv(y, act);
    if act.Respond? {
      ConservedIsKnown(y.s) by { InvConserves(y.s); }
      AnswerAppended(y, act.i, act.failed);
      OneMoreAnswer(y.answers, Reacted(y, act.i, act.failed).answers[|y.answers|], y.random);
      if AllUnobstructed(y.answers, y.random) {
        RightExactly(y, act.i, act.failed);
      }
    } else {
      AnswersKept(y, act);
      if AllUnobstructed(y.answers, y.random) {
        ActInStep(y, act);
      }
    }
  }

  lemma AnswerAppended(y: System, i: nat, failed: bool)
    requires OneHandler(y.s) && AllKnown(y.s) && i < |y.line|
    ensures var z := Reacted(y, i, failed);
      |z.answers| == |y.answers| + 1 && z.answers == y.answers + [z.answers[|y.answers|]]
  {
    hide Inv;
  }

  lemma StartIsExact(random: bool)
    ensures Exact(Fresh(random)) && InStep(Fresh(random))
  {
    hide Inv, Run;
    RunNothing(Start(1));
    ReachableKeepsInv(1, []);
    var none: seq<Slot> := [];
    assert none + none == none;
    NoSlots(Start(1));
  }

  lemma RunNothing(s: State)
    ensures Run(s, []) == Some(s)
  {
  }

  lemma {:induction false} RunKeepsExact(y: System, acts: seq<Act>)
    requires Exact(y) && RunAll(y, acts).Some?
    ensures Exact(RunAll(y, acts).value) && RunAll(y, acts).value.random == y.random
    decreases |acts|
  {
    hide Exact, Do, Possible, OneHandler;
    if acts != [] {
      assert OneHandler(y.s) by { ExactHasInv(y); }
      DoKeepsExact(y, acts[0]);
      DoKeepsInv(y, acts[0]);
      RunKeepsExact(Do(y, acts[0]), acts[1..]);
    }
  }

  lemma ExactHasInv(y: System)
    requires Exact(y)
    ensures OneHandler(y.s)
  {
  }

  /**
    Over every run of sends, acceptances, refusals whose records are taken out later, batches and
    replies, in order or in random order: all replies were right if and only if none was
    obstructed, which can be told from the requests alone.
  */
  lemma RightIfAndOnlyIfUnobstructed(acts: seq<Act>, random: bool)
    requires RunAll(Fresh(random), acts).Some?
    ensures var y := RunAll(Fresh(random), acts).value;
      && (AllRight(y.answers) <==> AllUnobstructed(y.answers, random))
      && (AllRight(y.answers) ==> InStep(y))
  {
    hide InStep, RunAll;
    StartIsExact(random);
    RunKeepsExact(Fresh(random), acts);
  }

  // Ids kept apart

  /** Requests without callbacks use the ids in `bare`, the others do not. */
  ghost predicate IdsApart(acts: seq<Act>, bare: set<nat>) {
    forall a <- acts :: (a.Send? ==> a.reqId !in bare) && (a.SendBare? ==> a.reqId in bare)
  }

  ghost predicate Apart(slots: seq<Slot>, bare: set<nat>) {
    forall x <- slots :: x.request.ReqId() in bare <==> x.request.Bare?
  }

  ghost predicate LinesApart(y: System, bare: set<nat>) {
    && Apart(InLine(y), bare) && Apart(InBatch(y), bare)
    && forall a <- y.answers :: Apart(a.line, bare) && a.i < |a.line| && a.request == a.line[a.i].request
  }

  lemma ApartJoin(a: seq<Slot>, b: seq<Slot>, bare: set<nat>)
    ensures Apart(a + b, bare) <==> Apart(a, bare) && Apart(b, bare)
  {
    assert forall x <- a :: x in a + b;
    assert forall x <- b :: x in a + b;
  }

  lemma ApartWithout(slots: seq<Slot>, i: nat, bare: set<nat>)
    requires i < |slots| && Apart(slots, bare)
    ensures Apart(Without(slots, i), bare)
  {
    assert forall x <- Without(slots, i) :: x in slots;
  }

  lemma ApartOne(x: Slot, bare: set<nat>)
    ensures Apart([x], bare) <==> (x.request.ReqId() in bare <==> x.request.Bare?)
    ensures Apart([], bare)
  {
    assert x in [x];
  }

  lemma LinesStayApart(y: System, act: Act, bare: set<nat>)
    requires Possible(y, act) && OneHandler(y.s) && LinesApart(y, bare) && IdsApart([act], bare)
    ensures Apart(InLine(Do(y, act)), bare) && Apart(InBatch(Do(y, act)), bare)
  {
    hide Inv, Apart, Reacted, Next, Refuse;
    assert act in [act];
    var z := Do(y, act);
    var tail, batchTail := InLine(y)[|y.line|..], InBatch(y)[|y.later|..];
    ApartJoin(y.line, tail, bare);
    ApartJoin(y.later, batchTail, bare);
    match act
    case Send(_, _, _, _, _) =>
      var x := Slot(z.current.value, Undecided);
      ApartOne(x, bare);
      ApartJoin(y.line, [x], bare);
      ApartJoin(y.later, [x], bare);
      assert y.line + [] == y.line && y.later + [] == y.later;
    case Unqueue(i, inBatch) =>
      ApartWithout(if inBatch then y.later else y.line, i, bare);
      ApartJoin(z.line, tail, bare);
      ApartJoin(z.later, batchTail, bare);
    case Respond(i, failed) =>
      ApartWithout(y.line, i, bare);
      ConservedIsKnown(y.s) by { InvConserves(y.s); }
      ReactedLines(y, i, failed);
      ApartJoin(z.line, tail, bare);
    case RecycleOne(_) =>
    case StartBatch => ApartOne(Slot(Bare(0), Sent), bare);
    case CommitBatch =>
      ApartOne(Slot(Bare(0), Sent), bare);
      ApartJoin(y.line, y.later, bare);
      assert z.line + [] == z.line && z.later + [] == z.later;
    case AbortBatch =>
      ApartOne(Slot(Bare(0), Sent), bare);
      assert z.line + [] == z.line && z.later + [] == z.later;
    case _ =>
      JoinsApart(y, act, bare);
  }

  lemma JoinsApart(y: System, act: Act, bare: set<nat>)
    requires (act.Accept? || act.RefuseIt? || act.SendBare?) && Possible(y, act) && OneHandler(y.s)
    requires LinesApart(y, bare) && IdsApart([act], bare)
    ensures Apart(InLine(Do(y, act)), bare) && Apart(InBatch(Do(y, act)), bare)
  {
    hide Inv, Apart;
    assert act in [act];
    var tail, batchTail := InLine(y)[|y.line|..], InBatch(y)[|y.later|..];
    ApartJoin(y.line, tail, bare);
    ApartJoin(y.later, batchTail, bare);
    var x := if act.SendBare? then Slot(Bare(act.reqId), Sent)
             else Slot(y.current.value, if act.Accept? then Sent else Refused);
    ApartOne(x, bare);
    if y.current.Some? {
      ApartOne(Slot(y.current.value, Undecided), bare);
    }
    ApartJoin(y.line, [x], bare);
    ApartJoin(y.later, [x], bare);
    ApartJoin(y.line + [x], tail, bare);
    ApartJoin(y.later + [x], batchTail, bare);
    assert y.line + [x] + [] == y.line + [x] && y.later + [x] + [] == y.later + [x];
    assert y.line + [] == y.line && y.later + [] == y.later;
  }

  lemma ReactedLines(y: System, i: nat, failed: bool)
    requires i < |y.line| && OneHandler(y.s) && AllKnown(y.s)
    ensures var z := Reacted(y, i, failed);
      && z.line == Without(y.line, i) && z.later == y.later && z.current == y.current && z.batching == y.batching
      && z.random == y.random
      && |z.answers| == |y.answers| + 1 && z.answers == y.answers + [z.answers[|y.answers|]]
      && var a := z.answers[|y.answers|]; a.line == InLine(y) && a.i == i && a.request == y.line[i].request
  {
    hide Inv;
  }

  lemma DoKeepsApart(y: System, act: Act, bare: set<nat>)
    requires Possible(y, act) && OneHandler(y.s) && LinesApart(y, bare) && IdsApart([act], bare)
    ensures LinesApart(Do(y, act), bare)
  {
    hide Inv, Apart, Reacted;
    LinesStayApart(y, act, bare);
    if act.Respond? {
      ConservedIsKnown(y.s) by { InvConserves(y.s); }
      ReactedLines(y, act.i, act.failed);
    } else {
      AnswersKept(y, act);
    }
  }

  lemma {:induction false} RunKeepsApart(y: System, acts: seq<Act>, bare: set<nat>)
    requires LinesApart(y, bare) && IdsApart(acts, bare) && RunAll(y, acts).Some?
    ensures LinesApart(RunAll(y, acts).value, bare)
    decreases |acts|
  {
    hide LinesApart, Do, Possible, OneHandler;
    if acts != [] {
      assert IdsApart([acts[0]], bare) && IdsApart(acts[1..], bare);
      DoKeepsApart(y, acts[0], bare);
      RunKeepsApart(Do(y, acts[0]), acts[1..], bare);
    }
  }

  /**
    With ids of requests without callbacks kept apart from the others, every reply or exception
    reaches its own request's record and fires that request's callback, and the callback queue is
    the records of the outstanding requests in wire order, whenever replies come in turn: in order,
    not while the record of an earlier refused request still waits to be taken out; in random
    order, in wire order for each id.
  */
  lemma DeliversInTurn(acts: seq<Act>, random: bool, bare: set<nat>)
    requires RunAll(Fresh(random), acts).Some? && IdsApart(acts, bare)
    requires forall a <- RunAll(Fresh(random), acts).value.answers :: a.request.Tracked? ==> InTurn(a, random)
    ensures var y := RunAll(Fresh(random), acts).value; AllRight(y.answers) && InStep(y)
  {
    hide InStep, RunAll, Right, Inv;
    RunKeepsApart(Fresh(random), acts, bare);
    var y := RunAll(Fresh(random), acts).value;
    forall a <- y.answers ensures Unobstructed(a, random) {
      if a.request.Bare? {
        assert a.line[a.i] in a.line;
        assert forall j: nat :: Leads(a.line, j) ==> a.line[j] in a.line;
      }
    }
    RightIfAndOnlyIfUnobstructed(acts, random);
  }

  // Ids not kept apart

  /** Decided requests stand on the wire or in the batch; in order, only refused ones stood before an answered one. */
  ghost predicate Orderly(y: System) {
    && (forall x <- y.line :: x.status != Undecided) && (forall x <- y.later :: x.status != Undecided)
    && forall a <- y.answers :: a.i < |a.line| && a.request == a.line[a.i].request
         && (!y.random ==> forall j :: 0 <= j < a.i ==> a.line[j].status == Refused)
  }

  lemma RespondKeepsOrderly(y: System, i: nat, failed: bool)
    requires Possible(y, Respond(i, failed)) && OneHandler(y.s) && Orderly(y)
    ensures Orderly(Do(y, Respond(i, failed)))
  {
    hide Inv, Reacted;
    var z := Do(y, Respond(i, failed));
    ConservedIsKnown(y.s) by { InvConserves(y.s); }
    ReactedLines(y, i, failed);
    assert forall x <- z.line :: x in y.line;
    assert forall j :: 0 <= j < |y.line| ==> InLine(y)[j] == y.line[j] && y.line[j] in y.line;
  }

  lemma DoKeepsOrderly(y: System, act: Act)
    requires Possible(y, act) && OneHandler(y.s) && Orderly(y)
    ensures Orderly(Do(y, act))
  {
    hide Inv, Reacted, Next, Refuse;
    var z := Do(y, act);
    DoKeepsInv(y, act);
    if act.Respond? {
      RespondKeepsOrderly(y, act.i, act.failed);
    } else {
      AnswersKept(y, act);
      assert forall x <- z.line :: x in y.line || x in y.later || x.status != Undecided;
      assert forall x <- z.later :: x in y.later || x.status != Undecided;
    }
  }

  lemma {:induction false} RunKeepsOrderly(y: System, acts: seq<Act>)
    requires Orderly(y) && RunAll(y, acts).Some?
    ensures Orderly(RunAll(y, acts).value) && RunAll(y, acts).value.random == y.random
    decreases |acts|
  {
    hide Orderly, Do, Possible, OneHandler;
    if acts != [] {
      DoKeepsOrderly(y, acts[0]);
      DoKeepsInv(y, acts[0]);
      RunKeepsOrderly(Do(y, acts[0]), acts[1..]);
    }
  }

  /**
    In order, when no refused record waits to be taken out while a reply comes, all replies are
    right if and only if at each reply to a request without callbacks the first outstanding
    request with callbacks had another id.
  */
  lemma WrongExactlyByBareIds(acts: seq<Act>)
    requires RunAll(Fresh(false), acts).Some?
    requires forall a <- RunAll(Fresh(false), acts).value.answers :: NoneRefused(a.line)
    ensures var answers := RunAll(Fresh(false), acts).value.answers;
      AllRight(answers) <==>
        forall a <- answers :: a.request.Bare? ==>
          forall j: nat :: Leads(a.line, j) ==> a.line[j].request.ReqId() != a.request.id
  {
    hide InStep, RunAll, Right, Leads;
    RunKeepsOrderly(Fresh(false), acts);
    RightIfAndOnlyIfUnobstructed(acts, false);
    var answers := RunAll(Fresh(false), acts).value.answers;
    forall a <- answers | a.request.Tracked? ensures Unobstructed(a, false) {
      assert forall j :: 0 <= j < |a.line| ==> a.line[j] in a.line;
    }
  }

  /** A request without callbacks and one with, of the same id, and the reply to the first. */
  function Stealing(): seq<Act> {
    [SendBare(0x3000, true), Send(0x3000, true, false, false, 0), Accept, Respond(0, false), Respond(0, false)]
  }

  /**
    The reply to the request without callbacks takes the other's record away and fires its
    callback; the other's own reply then finds nothing.
  */
  lemma RecordIsStolen()
    ensures var e := Entry(0, 0x3000, true, false, false);
      var line := [Slot(Bare(0x3000), Sent), Slot(Tracked(0, e), Sent)];
      && RunAll(Fresh(false), Stealing()).Some?
      && RunAll(Fresh(false), Stealing()).value.answers
         == [Answered(line, 0, Bare(0x3000), Some(e), [Event(0, Returned)], false),
             Answered(line[1..], 0, Tracked(0, e), None, [], false)]
  {
    hide RunAll;
    var acts := Stealing();
    var y := BothSent();
    assert acts[3..] == [Respond(0, false), Respond(0, false)];
    BothAnswered(y);
  }

  /** Both requests are on the wire, and the second one's record is queued. */
  ghost predicate OnTheWire(y: System) {
    var e := Entry(0, 0x3000, true, false, false);
    && OneHandler(y.s) && !y.random && y.current == None && y.answers == []
    && y.line == [Slot(Bare(0x3000), Sent), Slot(Tracked(0, e), Sent)]
    && y.s.handlers[0].queue == [0] && 0 in y.s.entries && y.s.entries[0] == e
  }

  lemma BothSent() returns (y: System)
    ensures OnTheWire(y) && RunAll(Fresh(false), Stealing()) == RunAll(y, Stealing()[3..])
  {
    hide Inv, RunAll;
    StartIsExact(false);
    var acts := Stealing();
    var y1 := Stepped(Fresh(false), acts);
    var y2 := Stepped(y1, acts[1..]);
    assert Start(1).handlers == [Handler([], [])];
    assert y1.s == Start(1) && [] + [0] == [0];
    assert y2.s.handlers[0].queue == [0];
    y := Stepped(y2, acts[2..]);
    assert acts[1..][1..] == acts[2..] && acts[2..][1..] == acts[3..];
  }

  lemma BothAnswered(y: System)
    requires OnTheWire(y)
    ensures var e := Entry(0, 0x3000, true, false, false);
      var run := RunAll(y, [Respond(0, false), Respond(0, false)]);
      && run.Some?
      && run.value.answers
         == [Answered(y.line, 0, Bare(0x3000), Some(e), [Event(0, Returned)], false),
             Answered(y.line[1..], 0, Tracked(0, e), None, [], false)]
  {
    hide Inv, RunAll;
    var acts := [Respond(0, false), Respond(0, false)];
    assert acts[1..] == [Respond(0, false)] && acts[1..][1..] == [];
    var z := Stepped(y, acts);
    assert InLine(y) == y.line && Without(y.line, 0) == y.line[1..];
    assert z.answers == [Answered(y.line, 0, Bare(0x3000), Some(y.s.entries[0]), [Event(0, Returned)], false)];
    assert z.s.handlers[0].queue == [] && z.line == y.line[1..] && InLine(z) == z.line;
    var t := Stepped(z, acts[1..]);
    assert t.answers == z.answers + [Answered(z.line, 0, z.line[0].request, None, [], false)];
    RunEnds(t);
  }

  lemma RunEnds(y: System)
    ensures RunAll(y, []) == Some(y)
  {
  }

  lemma Stepped(y: System, acts: seq<Act>) returns (z: System)
    requires acts != [] && OneHandler(y.s) && Possible(y, acts[0])
    ensures z == Do(y, acts[0]) && OneHandler(z.s) && RunAll(y, acts) == RunAll(z, acts[1..])
  {
    hide Do, Possible, OneHandler;
    z := Do(y, acts[0]);
    DoKeepsInv(y, acts[0]);
  }
}
