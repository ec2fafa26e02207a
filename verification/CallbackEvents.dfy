/**
  What the steps of Callbacks make of a request (include/aclientw.cpp): which callbacks a sweep
  and a reply fire and in which order, which record a reply takes, and what a send leaves behind.
  Each law speaks of the records and their entries, not of the functions the steps are made of.
*/
module CallbackEvents {
  import opened Wrappers
  import opened Callbacks

  // Cleaning

  ghost predicate HasDiscarded(r: Rec, entries: map<Rec, Entry>) {
    r in entries && entries[r].discarded
  }

  /** The k-th event is the discarded callback of the record at `order[k]`; the records are taken in turn, none is left out. */
  ghost predicate FiresAt(order: seq<nat>, events: seq<Event>, recs: seq<Rec>, entries: map<Rec, Entry>) {
    && |order| == |events|
    && (forall k :: 0 <= k < |order| ==>
          && order[k] < |recs| && HasDiscarded(recs[order[k]], entries)
          && events[k] == Event(entries[recs[order[k]]].send, Discarded))
    && (forall i, j :: 0 <= i < j < |order| ==> order[i] < order[j])
    && (forall i :: 0 <= i < |recs| && HasDiscarded(recs[i], entries) ==> i in order)
  }

  /** The events are the discarded callbacks of all the records that have one, in the order of the records. */
  ghost predicate FiresInTurn(events: seq<Event>, recs: seq<Rec>, entries: map<Rec, Entry>) {
    exists order :: FiresAt(order, events, recs, entries)
  }

  function Shifted(order: seq<nat>): (r: seq<nat>)
    ensures |r| == |order| && forall k :: 0 <= k < |order| ==> r[k] == order[k] + 1
  {
    seq(|order|, k requires 0 <= k < |order| => order[k] + 1)
  }

  lemma FiresBehindSilent(order: seq<nat>, events: seq<Event>, first: Rec, rest: seq<Rec>, entries: map<Rec, Entry>)
    requires FiresAt(order, events, rest, entries) && !HasDiscarded(first, entries)
    ensures FiresAt(Shifted(order), events, [first] + rest, entries)
  {
    hide Shifted, HasDiscarded;
    var recs, moved := [first] + rest, Shifted(order);
    forall i | 0 <= i < |recs| && HasDiscarded(recs[i], entries) ensures i in moved {
      assert recs[i] == rest[i - 1];
      var k :| 0 <= k < |order| && order[k] == i - 1;
      assert moved[k] == i;
    }
  }

  lemma FiresBehindFiring(order: seq<nat>, events: seq<Event>, first: Rec, rest: seq<Rec>, entries: map<Rec, Entry>)
    requires FiresAt(order, events, rest, entries) && HasDiscarded(first, entries)
    ensures FiresAt([0] + Shifted(order), [Event(entries[first].send, Discarded)] + events, [first] + rest, entries)
  {
    hide Shifted;
    var recs: seq<Rec>, moved: seq<nat> := [first] + rest, [0] + Shifted(order);
    var all := [Event(entries[first].send, Discarded)] + events;
    forall k | 0 <= k < |moved|
      ensures moved[k] < |recs| && HasDiscarded(recs[moved[k]], entries)
      ensures recs[moved[k]] in entries && all[k] == Event(entries[recs[moved[k]]].send, Discarded)
    {
      if k > 0 {
        assert moved[k] == order[k - 1] + 1 && recs[moved[k]] == rest[order[k - 1]] && all[k] == events[k - 1];
      }
    }
    forall i, j | 0 <= i < j < |moved| ensures moved[i] < moved[j] {
      assert moved[j] == order[j - 1] + 1;
      assert i > 0 ==> moved[i] == order[i - 1] + 1;
    }
    forall i | 0 <= i < |recs| && HasDiscarded(recs[i], entries) ensures i in moved {
      if i == 0 {
        assert moved[0] == 0;
      } else {
        assert recs[i] == rest[i - 1];
        var k :| 0 <= k < |order| && order[k] == i - 1;
        assert moved[k + 1] == i;
      }
    }
  }

  lemma {:induction false} DiscardsAt(recs: seq<Rec>, entries: map<Rec, Entry>) returns (order: seq<nat>)
    requires Known(recs, entries)
    ensures FiresAt(order, Discards(recs, entries), recs, entries)
  {
    if recs == [] {
      order := [];
    } else {
      hide FiresAt, Shifted;
      var first, rest := recs[0], recs[1..];
      var more := DiscardsAt(rest, entries);
      assert recs == [first] + rest;
      if entries[first].discarded {
        order := [0] + Shifted(more);
        FiresBehindFiring(more, Discards(rest, entries), first, rest, entries);
      } else {
        order := Shifted(more);
        FiresBehindSilent(more, Discards(rest, entries), first, rest, entries);
        assert [] + Discards(rest, entries) == Discards(rest, entries);
      }
    }
  }

  lemma DiscardsInTurn(a: seq<Rec>, b: seq<Rec>, entries: map<Rec, Entry>)
    requires Known(a, entries) && Known(b, entries)
    ensures FiresInTurn(Discards(a, entries) + Discards(b, entries), a + b, entries)
  {
    DiscardsAppend(a, b, entries);
    var order := DiscardsAt(a + b, entries);
  }

  /** A record of the block holds request n with a discarded callback. */
  ghost predicate Holds(block: seq<Rec>, n: nat, entries: map<Rec, Entry>) {
    exists r :: r in block && HasDiscarded(r, entries) && entries[r].send == n
  }

  /**
    Cleaning a handler fires the discarded callback of a request exactly if a record of the batch
    or of the queue holds the request with one; it fires each once and nothing else, those of the
    batch before those of the queue.
  */
  lemma SweepFires(s: State, h: nat)
    requires Inv(s) && h < |s.handlers|
    ensures AllKnown(s) && s.log <= Next(s, Sweep(h)).log
    ensures var at, fired := s.handlers[h], Next(s, Sweep(h)).log[|s.log|..];
      && (forall n: nat :: Event(n, Discarded) in fired <==> Holds(at.batch, n, s.entries) || Holds(at.queue, n, s.entries))
      && (forall e <- fired :: e.kind == Discarded)
      && (forall i, j :: 0 <= i < j < |fired| ==> fired[i] != fired[j])
      && (forall i, j | 0 <= i < |fired| && 0 <= j < |fired| ::
            Holds(at.batch, fired[i].send, s.entries) && Holds(at.queue, fired[j].send, s.entries) ==> i < j)
  {
    hide Conserved, Faithful, Discards, FiresAt;
    ConservedIsKnown(s);
    KnownAt(s, h);
    var at, t := s.handlers[h], Next(s, Sweep(h));
    var recs := at.batch + at.queue;
    DiscardsAppend(at.batch, at.queue, s.entries);
    var order := DiscardsAt(recs, s.entries);
    var fired := Discards(recs, s.entries);
    assert t.log == s.log + fired;
    assert t.log[|s.log|..] == fired;
    OwnSends(s, h);
    FiredExactly(order, fired, at.batch, at.queue, s.entries);
  }

  ghost predicate DifferentSends(recs: seq<Rec>, entries: map<Rec, Entry>) {
    Known(recs, entries) && forall i, j :: 0 <= i < j < |recs| ==> entries[recs[i]].send != entries[recs[j]].send
  }

  lemma FiredExactly(order: seq<nat>, fired: seq<Event>, a: seq<Rec>, b: seq<Rec>, entries: map<Rec, Entry>)
    requires FiresAt(order, fired, a + b, entries) && DifferentSends(a + b, entries)
    ensures forall n: nat :: Event(n, Discarded) in fired <==> Holds(a, n, entries) || Holds(b, n, entries)
    ensures forall e <- fired :: e.kind == Discarded
    ensures forall i, j :: 0 <= i < j < |fired| ==> fired[i] != fired[j]
    ensures forall i, j | 0 <= i < |fired| && 0 <= j < |fired| ::
      Holds(a, fired[i].send, entries) && Holds(b, fired[j].send, entries) ==> i < j
  {
    var recs := a + b;
    forall n: nat ensures Event(n, Discarded) in fired <==> Holds(a, n, entries) || Holds(b, n, entries) {
      FiredIfHeld(order, fired, a, b, entries, n);
    }
    forall i, j | 0 <= i < j < |fired| ensures fired[i] != fired[j] {
      assert order[i] < order[j];
    }
    forall i, j | 0 <= i < |fired| && 0 <= j < |fired| && Holds(a, fired[i].send, entries) && Holds(b, fired[j].send, entries)
      ensures i < j
    {
      BatchIsFirst(order, fired, a, b, entries, i, j);
    }
  }

  lemma FiredIfHeld(order: seq<nat>, fired: seq<Event>, a: seq<Rec>, b: seq<Rec>, entries: map<Rec, Entry>, n: nat)
    requires FiresAt(order, fired, a + b, entries)
    ensures Event(n, Discarded) in fired <==> Holds(a, n, entries) || Holds(b, n, entries)
  {
    var recs := a + b;
    if Event(n, Discarded) in fired {
      var k :| 0 <= k < |fired| && fired[k] == Event(n, Discarded);
      assert recs[order[k]] in (if order[k] < |a| then a else b);
    }
    if Holds(a, n, entries) {
      var i := HoldsAt(a, n, entries);
      assert recs[i] == a[i];
      FiredAt(order, fired, recs, entries, i);
    }
    if Holds(b, n, entries) {
      var i := HoldsAt(b, n, entries);
      assert recs[|a| + i] == b[i];
      FiredAt(order, fired, recs, entries, |a| + i);
    }
  }

  lemma BatchIsFirst(order: seq<nat>, fired: seq<Event>, a: seq<Rec>, b: seq<Rec>, entries: map<Rec, Entry>, i: nat, j: nat)
    requires FiresAt(order, fired, a + b, entries) && DifferentSends(a + b, entries) && i < |fired| && j < |fired|
    requires Holds(a, fired[i].send, entries) && Holds(b, fired[j].send, entries)
    ensures i < j
  {
    var recs := a + b;
    var x := HoldsAt(a, fired[i].send, entries);
    var y := HoldsAt(b, fired[j].send, entries);
    assert recs[x] == a[x] && recs[|a| + y] == b[y];
    assert order[i] == x && order[j] == |a| + y;
  }

  lemma HoldsAt(block: seq<Rec>, n: nat, entries: map<Rec, Entry>) returns (i: nat)
    requires Holds(block, n, entries)
    ensures i < |block| && HasDiscarded(block[i], entries) && entries[block[i]].send == n
  {
    var r :| r in block && HasDiscarded(r, entries) && entries[r].send == n;
    i :| 0 <= i < |block| && block[i] == r;
  }

  lemma FiredAt(order: seq<nat>, fired: seq<Event>, recs: seq<Rec>, entries: map<Rec, Entry>, i: nat)
    requires FiresAt(order, fired, recs, entries) && i < |recs| && HasDiscarded(recs[i], entries)
    ensures Event(entries[recs[i]].send, Discarded) in fired
  {
    var k :| 0 <= k < |order| && order[k] == i;
    assert fired[k] == Event(entries[recs[i]].send, Discarded);
  }

  // Replies

  /** The place of a reply's record: the first of its id in random order, otherwise the front if it has the id. */
  ghost predicate IsMatch(queue: seq<Rec>, entries: map<Rec, Entry>, reqId: nat, random: bool, i: nat)
    requires Known(queue, entries)
  {
    && i < |queue| && entries[queue[i]].reqId == reqId
    && (forall k :: 0 <= k < i ==> entries[queue[k]].reqId != reqId)
    && (!random ==> i == 0)
  }

  lemma MatchIsFirst(queue: seq<Rec>, entries: map<Rec, Entry>, reqId: nat, random: bool)
    requires Known(queue, entries) && Matching(queue, entries, reqId, random).Some?
    ensures IsMatch(queue, entries, reqId, random, Matching(queue, entries, reqId, random).value)
  {
    hide FirstOf;
  }

  lemma MatchIsUnique(queue: seq<Rec>, entries: map<Rec, Entry>, reqId: nat, random: bool, i: nat)
    requires Known(queue, entries) && IsMatch(queue, entries, reqId, random, i)
    ensures Matching(queue, entries, reqId, random) == Some(i)
  {
    hide FirstOf;
    if random {
      var m := FirstOf(queue, entries, reqId);
      assert m.Some? && !(m.value < i) && !(i < m.value);
    }
  }

  lemma MatchIsAlone(queue: seq<Rec>, entries: map<Rec, Entry>, reqId: nat, random: bool)
    requires Known(queue, entries)
    ensures var m := Matching(queue, entries, reqId, random);
      && (m.Some? ==> IsMatch(queue, entries, reqId, random, m.value))
      && forall i: nat | IsMatch(queue, entries, reqId, random, i) :: m == Some(i)
  {
    if Matching(queue, entries, reqId, random).Some? {
      MatchIsFirst(queue, entries, reqId, random);
    }
    forall i: nat | IsMatch(queue, entries, reqId, random, i) ensures Matching(queue, entries, reqId, random) == Some(i) {
      MatchIsUnique(queue, entries, reqId, random, i);
    }
  }

  /** What a reply to a request calls: the callback for its kind if the request has one. */
  ghost predicate FiresOwn(before: seq<Event>, after: seq<Event>, e: Entry, failed: bool) {
    var kind := if failed then Exception else Returned;
    after == before + if HasCallback(e, kind) then [Event(e.send, kind)] else []
  }

  /**
    A reply takes its record from its place and fires the callback the request has for it, a
    result's or an exception's; with no record of its id in place it changes nothing.
  */
  lemma AnsweredExactly(s: State, h: nat, reqId: nat, failed: bool, random: bool)
    requires AllKnown(s) && h < |s.handlers|
    ensures var at, t := s.handlers[h], Next(s, Reply(h, reqId, failed, random));
      && (t != s <==> exists i: nat :: IsMatch(at.queue, s.entries, reqId, random, i))
      && forall i: nat | IsMatch(at.queue, s.entries, reqId, random, i) ::
           && FiresOwn(s.log, t.log, s.entries[at.queue[i]], failed)
           && t == s.(handlers := s.handlers[h := at.(queue := at.queue[..i] + at.queue[i + 1..])],
                      held := s.held + [at.queue[i]], log := t.log)
  {
    KnownAt(s, h);
    var at, t := s.handlers[h], Next(s, Reply(h, reqId, failed, random));
    var m := Matching(at.queue, s.entries, reqId, random);
    MatchIsAlone(at.queue, s.entries, reqId, random);
    if m.Some? {
      assert |t.held| == |s.held| + 1;
    }
  }

  // Sends

  /**
    A send fills one record with the whole request and puts it behind the batch or behind the
    queue: the record at the front of the pool, which leaves it, or a new one.
  */
  lemma SentExactly(s: State, step: Step)
    requires step.SendBegin? && Enabled(s, step) && AllKnown(s) && Conserved(s)
    ensures var t := Next(s, step);
      && (exists r :: SentIn(s, t, step, r) && (if s.pool == [] then r == step.made else s.pool == [r] + t.pool))
      && t.log == s.log && t.held == s.held && t.swept == s.swept
  {
  }

  ghost predicate SentIn(s: State, t: State, step: Step, r: Rec)
    requires step.SendBegin? && |s.handlers| == |t.handlers| && step.h < |s.handlers|
  {
    var a, b := s.handlers[step.h], t.handlers[step.h];
    && r in t.entries && t.sends == s.sends + [t.entries[r]]
    && t.entries[r] == Entry(|s.sends|, step.reqId, step.result, step.discarded, step.exception)
    && b == (if step.batching then Handler(a.queue, a.batch + [r]) else Handler(a.queue + [r], a.batch))
    && (forall q :: q in s.entries && q != r ==> q in t.entries && t.entries[q] == s.entries[q])
  }

  // The other steps

  /** Nothing fires and no request is recorded but in the steps above; a record keeps what it holds until it is reused. */
  lemma OthersAreSilent(s: State, step: Step)
    requires Enabled(s, step) && AllKnown(s) && !step.SendBegin? && !step.Reply? && !step.Sweep?
    ensures var t := Next(s, step);
      && t.log == s.log && t.sends == s.sends
      && (forall r :: r in t.entries ==> r in s.entries && t.entries[r] == s.entries[r])
      && (forall r :: r in s.entries && r !in t.entries ==> step.TrimPool? && r in s.pool)
  {
    hide Without, LastOf;
  }

  /**
    Where records go: a committed batch behind the queue, an aborted one behind the pool, a merged
    queue behind the other handler's, a recycled record to the front of the pool and a block put back
    behind it; trimming keeps the front of the pool.
  */
  lemma MovesExactly(s: State, step: Step)
    requires Enabled(s, step) && AllKnown(s)
    ensures var t := Next(s, step);
      match step
      case Commit(h) =>
        t.handlers[h].queue == s.handlers[h].queue + s.handlers[h].batch && t.handlers[h].batch == [] && t.pool == s.pool
      case Abort(h) =>
        t.handlers[h].queue == s.handlers[h].queue && t.handlers[h].batch == [] && t.pool == s.pool + s.handlers[h].batch
      case Merge(h, to) =>
        t.handlers[h].queue == [] && t.handlers[to].queue == s.handlers[to].queue + s.handlers[h].queue
        && t.handlers[h].batch == s.handlers[h].batch && t.handlers[to].batch == s.handlers[to].batch && t.pool == s.pool
      case Recycle(i) => t.pool == [s.held[i]] + s.pool && t.held == s.held[..i] + s.held[i + 1..] && t.handlers == s.handlers
      case PutBack(i) => t.pool == s.pool + s.swept[i] && t.swept == s.swept[..i] + s.swept[i + 1..] && t.handlers == s.handlers
      case TrimPool(n) =>
        t.pool == (if n < |s.pool| then s.pool[..n] else s.pool) && t.handlers == s.handlers
        && forall r :: r in t.entries <==> r in s.entries && (n < |s.pool| ==> r !in s.pool[n..])
      case _ => true
  {
    hide LastOf;
  }
}
