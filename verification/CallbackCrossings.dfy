/**
  Two runs in which one thread sends while another ends a batch (include/aclientw.cpp), and an
  accepted request's reply finds nothing.
*/
module CallbackCrossings {
  import opened Wrappers
  import opened Callbacks
  import opened CallbackBatches
  import opened CallbackFlushes

  lemma Stepped(y: System, acts: seq<Act>) returns (z: System)
    requires acts != [] && Order.OneHandler(y.s) && Possible(y, acts[0])
    ensures z == Do(y, acts[0]) && Order.OneHandler(z.s) && RunAll(y, acts) == RunAll(z, acts[1..])
  {
    hide Do, Possible, Order.OneHandler;
    z := Do(y, acts[0]);
    DoKeepsInv(y, acts[0]);
  }

  /** A send finds the batch open, and another thread's commit has already flushed the queue of the batch. */
  function Stranding(): seq<Act> {
    [StartBatch, Flush, Send(0x3000, true, false, false, 0, true), Accept, CommitCore, Respond(0, false)]
  }

  /** The batch is open, its queue flushed, and nothing else has happened. */
  ghost predicate HalfCommitted(y: System) {
    && Order.OneHandler(y.s) && y.s.handlers == [Handler([], [])] && y.s.pool == []
    && y.s.sends == [] && y.s.entries == map[]
    && y.open && y.everOpen && y.commits == 1 && y.done == 2 && y.current == None
    && y.queued == [] && y.wire == [] && y.kept == [] && y.answers == []
  }

  lemma CommitBegins(random: bool) returns (y: System)
    ensures HalfCommitted(y) && RunAll(Fresh(random), Stranding()) == RunAll(y, Stranding()[2..])
  {
    hide RunAll, Inv;
    var acts := Stranding();
    StartIsExact(random);
    var y1 := Stepped(Fresh(random), acts);
    var none: seq<Rec> := [];
    assert y1.s.handlers == [Handler([], [])] && none + none == none;
    y := Stepped(y1, acts[1..]);
    assert acts[1..][1..] == acts[2..] && y.s.handlers == [Handler([], [])];
  }

  /** The send's request is on the wire, and its record not in the callback queue. */
  ghost predicate Stranded(y: System) {
    && Order.OneHandler(y.s) && y.s.handlers[0].queue == [] && y.done == 5 && y.queued == [] && y.answers == []
    && y.wire == [Tracked(Item(0, Entry(0, 0x3000, true, false, false), 2))]
  }

  lemma SendCrosses(y: System) returns (z: System)
    requires HalfCommitted(y)
    ensures Stranded(z) && RunAll(y, Stranding()[2..]) == RunAll(z, Stranding()[5..])
  {
    hide RunAll, Inv;
    var acts := Stranding();
    assert acts[2..][1..] == acts[3..] && acts[3..][1..] == acts[4..] && acts[4..][1..] == acts[5..];
    var y3 := Stepped(y, acts[2..]);
    assert y3.s.handlers[0].queue == [];
    var y4 := Stepped(y3, acts[3..]);
    z := Stepped(y4, acts[4..]);
  }

  /** Its record stays in the queue of the batch while its request goes on the wire; its reply finds nothing. */
  lemma RecordIsStranded(random: bool)
    ensures var e := Entry(0, 0x3000, true, false, false);
      && RunAll(Fresh(random), Stranding()).Some?
      && RunAll(Fresh(random), Stranding()).value.answers == [Answered([], Tracked(Item(0, e, 2)), None, [], false, 5)]
  {
    hide RunAll, Inv;
    var y := CommitBegins(random);
    var z := SendCrosses(y);
    assert Stranding()[5..] == [Respond(0, false)] && [Respond(0, false)][1..] == [];
    var last := Stepped(z, Stranding()[5..]);
    RunEnds(last);
    AnswersAfter(z, Respond(0, false));
  }

  /**
    An abort recycles the record of a refused send that is not yet taken out; the record serves the
    next send of the batch, and is then taken out in the first one's name.
  */
  function TakingBack(): seq<Act> {
    [StartBatch, Send(0x3000, true, false, false, 0, true), RefuseIt, Clean,
     Send(0x3001, true, false, false, 1, true), Accept, Unqueue(0), Flush, CommitCore, Respond(0, false)]
  }

  /** The refused send's record is back in the pool, and its removal is still to come. */
  ghost predicate Recycled(y: System) {
    && Order.OneHandler(y.s) && y.s.handlers == [Handler([], [])] && y.s.pool == [0] && |y.s.sends| == 1 && 1 !in y.s.entries
    && y.open && y.everOpen && y.done == 4 && y.current == None && |y.refused| == 1
    && y.refused[0] == Attempt(Item(0, Entry(0, 0x3000, true, false, false), 1), true)
    && y.queued == [] && y.batched == [] && y.wire == [] && y.kept == [] && y.answers == []
  }

  /** A send of the batch queues its record, the only one. */
  lemma QueuedAlone(y: System, act: Act)
    requires act.Send? && act.inBatch && Possible(y, act) && Order.OneHandler(y.s) && y.s.handlers == [Handler([], [])]
    ensures var x, t := Started(y, act), HandlerAfter(y, act);
      && t.handlers == [Handler([], [x.rec])] && t.entries == y.s.entries[x.rec := x.entry]
      && t.pool == (if y.s.pool != [] then y.s.pool[1..] else []) && t.sends == y.s.sends + [x.entry]
  {
    hide Inv;
    var none: seq<Rec> := [];
    assert none + [Started(y, act).rec] == [Started(y, act).rec];
  }

  ghost predicate BatchOpen(y: System) {
    && Order.OneHandler(y.s) && y.s.handlers == [Handler([], [])] && y.s.pool == []
    && y.s.sends == [] && y.s.entries == map[]
    && y.open && y.everOpen && y.done == 1 && y.current == None && y.refused == []
    && y.queued == [] && y.batched == [] && y.wire == [] && y.kept == [] && y.answers == []
  }

  lemma BatchOpens(random: bool) returns (y: System)
    ensures BatchOpen(y) && RunAll(Fresh(random), TakingBack()) == RunAll(y, TakingBack()[1..])
  {
    hide RunAll, Inv;
    StartIsExact(random);
    y := Stepped(Fresh(random), TakingBack());
    assert y.s.handlers == [Handler([], [])];
  }

  /** The refused send's record is still in the queue of the batch. */
  ghost predicate FirstRefused(y: System) {
    && Order.OneHandler(y.s) && y.s.handlers == [Handler([], [0])] && y.s.pool == [] && |y.s.sends| == 1 && 1 !in y.s.entries
    && y.open && y.everOpen && y.done == 3 && y.current == None
    && y.refused == [Attempt(Item(0, Entry(0, 0x3000, true, false, false), 1), true)]
    && y.queued == [] && y.wire == [] && y.kept == [] && y.answers == []
  }

  lemma FirstIsRefused(y: System) returns (z: System)
    requires BatchOpen(y)
    ensures FirstRefused(z) && RunAll(y, TakingBack()[1..]) == RunAll(z, TakingBack()[3..])
  {
    hide RunAll, Inv, HandlerAfter;
    var acts := TakingBack();
    assert acts[1..][1..] == acts[2..] && acts[2..][1..] == acts[3..];
    QueuedAlone(y, acts[1]);
    var y2 := Stepped(y, acts[1..]);
    assert HandlerAfter(y2, acts[2]) == y2.s by { SameHandler(y2); }
    z := Stepped(y2, acts[2..]);
  }

  lemma SameHandler(y: System)
    requires Order.OneHandler(y.s) && y.current.Some?
    ensures HandlerAfter(y, RefuseIt) == y.s && HandlerAfter(y, Accept) == y.s
  {
  }

  lemma AbortRecycles(y: System) returns (z: System)
    requires FirstRefused(y)
    ensures Recycled(z) && RunAll(y, TakingBack()[3..]) == RunAll(z, TakingBack()[4..])
  {
    hide RunAll, Inv;
    z := Stepped(y, TakingBack()[3..]);
    assert TakingBack()[3..][1..] == TakingBack()[4..];
    var none: seq<Rec> := [];
    assert none + [0] == [0] && z.s.handlers == [Handler([], [])];
  }

  /** The second send has been taken, and its record taken out in the name of the first. */
  ghost predicate TakenBack(y: System) {
    && Order.OneHandler(y.s) && y.s.handlers == [Handler([], [])] && y.done == 7 && y.answers == []
    && y.queued == [] && y.batched == [] && y.wire == []
    && y.kept == [Tracked(Item(0, Entry(1, 0x3001, true, false, false), 4))]
  }

  /** Taking the only record out of the queue of the batch leaves it empty. */
  lemma OnlyOneTakenOut(s: State)
    requires s.handlers == [Handler([], [0])]
    ensures Refuse(s, Pending(0, 0, true)).handlers == [Handler([], [])]
  {
    var none: seq<Rec> := [];
    assert LastOf([0], 0) == Some(0) && Without([0], 0) == none;
  }

  lemma SecondTakenOut(y: System) returns (z: System)
    requires Recycled(y)
    ensures TakenBack(z) && RunAll(y, TakingBack()[4..]) == RunAll(z, TakingBack()[7..])
  {
    hide RunAll, Inv, Refuse, TakenOut;
    var acts := TakingBack();
    assert acts[4..][1..] == acts[5..] && acts[5..][1..] == acts[6..] && acts[6..][1..] == acts[7..];
    QueuedAlone(y, acts[4]);
    var y5 := Stepped(y, acts[4..]);
    var x := Item(0, Entry(1, 0x3001, true, false, false), 4);
    assert y5.batched == [x] && y5.current == Some(Attempt(x, true));
    var y6 := Stepped(y5, acts[5..]);
    OnlyOneTakenOut(y6.s);
    OneTakenOut(x);
    z := Stepped(y6, acts[6..]);
  }

  lemma OneTakenOut(x: Item)
    ensures TakenOut([x], x.rec) == []
  {
    assert Recs([x]) == [x.rec];
  }

  /** The second send's request is on the wire. */
  ghost predicate OnTheWire(y: System) {
    && Order.OneHandler(y.s) && y.s.handlers[0].queue == [] && y.done == 9 && y.queued == [] && y.answers == []
    && y.wire == [Tracked(Item(0, Entry(1, 0x3001, true, false, false), 4))]
  }

  lemma SecondCommitted(y: System) returns (z: System)
    requires TakenBack(y)
    ensures OnTheWire(z) && RunAll(y, TakingBack()[7..]) == RunAll(z, TakingBack()[9..])
  {
    hide RunAll, Inv;
    var acts := TakingBack();
    assert acts[7..][1..] == acts[8..] && acts[8..][1..] == acts[9..];
    var none: seq<Rec> := [];
    assert none + none == none;
    var y8 := Stepped(y, acts[7..]);
    assert y8.s.handlers[0].queue == [];
    z := Stepped(y8, acts[8..]);
  }

  /** Its request was committed after it was sent, and yet its reply finds nothing. */
  lemma RecordIsTakenBack(random: bool)
    ensures var x := Item(0, Entry(1, 0x3001, true, false, false), 4);
      && RunAll(Fresh(random), TakingBack()).Some?
      && RunAll(Fresh(random), TakingBack()).value.answers == [Answered([], Tracked(x), None, [], false, 9)]
    ensures Arrived(TakingBack(), 4, 9)
  {
    hide RunAll, Inv, FirstHalf, FirstRefused, Recycled, TakenBack, BatchOpen;
    var y1 := BatchOpens(random);
    var y3 := FirstIsRefused(y1);
    var y4 := AbortRecycles(y3);
    var y7 := SecondTakenOut(y4);
    var y9 := SecondCommitted(y7);
    assert TakingBack()[9..] == [Respond(0, false)] && [Respond(0, false)][1..] == [];
    var last := Stepped(y9, TakingBack()[9..]);
    RunEnds(last);
    AnswersAfter(y9, Respond(0, false));
    assert TakingBack()[5..9] == [Accept, Unqueue(0), Flush, CommitCore];
    CommitComesFirst();
  }

  lemma CommitComesFirst()
    ensures FirstHalf([Accept, Unqueue(0), Flush, CommitCore]) == Some(Flushed)
  {
    assert [Accept, Unqueue(0), Flush, CommitCore][1..] == [Unqueue(0), Flush, CommitCore];
    assert [Unqueue(0), Flush, CommitCore][1..] == [Flush, CommitCore];
  }

  lemma RunEnds(y: System)
    ensures RunAll(y, []) == Some(y)
  {
  }
}
