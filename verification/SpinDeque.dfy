/**
  Threads calling one deque: the spin lock of include/commutil.h around the bodies of
  include/safequeue.h, as a transition system.  Threads interleave at every
  compare-exchange, at every group of stores of a body and at the releasing store.
  The result is linearizability: the calls that get the lock take effect as one
  sequential run on a mathematical sequence, in an order that respects real time, and a
  call whose spin budget runs out returns 0 and has no effect.
*/
module SpinDeque {

  import opened Wrappers
  import D = SafeDeque

  datatype Call<T> = PushBack(items: seq<T>) | PushFront(items: seq<T>) | PopBack(n: nat) | PopFront(n: nat) {
    function Size(): nat {
      match this
      case PushBack(items) => |items|
      case PushFront(items) => |items|
      case PopBack(n) => n
      case PopFront(n) => n
    }
  }

  /** What a call hands back: its return value and the elements stored in the caller's buffer. */
  datatype Answer<T> = Answer(returned: nat, out: seq<T>)

  // The sequential specification

  function Taken(n: nat, held: nat): nat {
    if n > held then held else n
  }

  function Effect<T>(call: Call<T>, xs: seq<T>): seq<T> {
    match call
    case PushBack(items) => xs + items
    case PushFront(items) => items + xs
    case PopBack(n) => xs[..|xs| - Taken(n, |xs|)]
    case PopFront(n) => xs[Taken(n, |xs|)..]
  }

  function Reply<T>(call: Call<T>, xs: seq<T>): Answer<T> {
    match call
    case PushBack(items) => Answer(|items|, [])
    case PushFront(items) => Answer(|items|, [])
    case PopBack(n) => Answer(Taken(n, |xs|), xs[|xs| - Taken(n, |xs|)..])
    case PopFront(n) => Answer(Taken(n, |xs|), xs[..Taken(n, |xs|)])
  }

  datatype Entry<T> = Entry(call: Call<T>, answer: Answer<T>)

  /** The sequence left by a sequential run that starts from the empty sequence. */
  function Replay<T>(history: seq<Entry<T>>): seq<T> {
    if history == [] then [] else Effect(history[|history| - 1].call, Replay(history[..|history| - 1]))
  }

  /** Every call of the history answered what the specification says at its place. */
  ghost predicate Sequential<T>(history: seq<Entry<T>>) {
    forall i :: 0 <= i < |history| ==> history[i].answer == Reply(history[i].call, Replay(history[..i]))
  }

  /** A pop divides the sequence at its end, as far as there is something; and it undoes a push at the same end. */
  lemma PopsExactly<T>(xs: seq<T>, items: seq<T>, n: nat)
    ensures var r := Reply(PopFront(n), xs);
      r.out + Effect(PopFront(n), xs) == xs && r.returned == |r.out| && (|r.out| == n || (|r.out| < n && r.out == xs))
    ensures var r := Reply(PopBack(n), xs);
      Effect(PopBack(n), xs) + r.out == xs && r.returned == |r.out| && (|r.out| == n || (|r.out| < n && r.out == xs))
    ensures var ys := Effect(PushFront(items), xs);
      Reply(PopFront(|items|), ys) == Answer(|items|, items) && Effect(PopFront(|items|), ys) == xs
    ensures var ys := Effect(PushBack(items), xs);
      Reply(PopBack(|items|), ys) == Answer(|items|, items) && Effect(PopBack(|items|), ys) == xs
    ensures Reply(PushFront(items), xs) == Reply(PushBack(items), xs) == Answer(|items|, [])
  {
  }

  // The shared memory and the groups of stores in each body

  datatype Memory<T> = Memory(header: nat, count: nat, cells: seq<T>) {
    ghost predicate Valid() {
      header + count <= |cells| && (count == 0 ==> header == 0)
    }

    ghost predicate Holds(start: nat, xs: seq<T>) {
      start + |xs| <= |cells| && cells[start..start + |xs|] == xs
    }
  }

  function Overwrite<T>(cells: seq<T>, at: nat, xs: seq<T>): (r: seq<T>)
    requires at + |xs| <= |cells|
    ensures |r| == |cells|
    ensures r[at..at + |xs|] == xs && r[..at] == cells[..at] && r[at + |xs|..] == cells[at + |xs|..]
  {
    cells[..at] + xs + cells[at + |xs|..]
  }

  /** A fresh block of n cells in which only the cells from `at` on are written. */
  function Allocate<T>(n: nat, at: nat, xs: seq<T>, junk: T): (r: seq<T>)
    requires at + |xs| <= n
    ensures |r| == n && r[at..at + |xs|] == xs
  {
    seq(at, _ => junk) + xs + seq(n - at - |xs|, _ => junk)
  }

  datatype Local<T> = Local(memory: Memory<T>, out: seq<T>)

  /** First group of stores: make room, or (for a pop at the front) copy the elements out. */
  function FirstStores<T>(call: Call<T>, m: Memory<T>, junk: T): Local<T>
    requires m.header + m.count <= |m.cells|
  {
    var capacity := |m.cells|;
    var held := m.cells[m.header..m.header + m.count];
    match call
    case PushBack(items) =>
      var tail := capacity - (m.header + m.count);
      if |items| <= tail then Local(m, [])
      else if m.count + |items| < tail + m.header then
        Local(Memory(0, m.count, Overwrite(m.cells, 0, held)), [])
      else
        Local(Memory(0, m.count, Allocate(|items| + capacity * 2, 0, held, junk)), [])
    case PushFront(items) =>
      var n := |items|;
      var space := capacity - m.count;
      if n <= m.header then Local(m.(header := m.header - n), [])
      else if n < space && m.count < capacity / 2 then
        Local(Memory(space - n, m.count, Overwrite(m.cells, space, held)), [])
      else
        var newCap := n + capacity * 2;
        Local(Memory(newCap - m.count - n, m.count, Allocate(newCap, newCap - m.count, held, junk)), [])
    case PopBack(n) => Local(m.(count := m.count - Taken(n, m.count)), [])
    case PopFront(n) => Local(m, m.cells[m.header..m.header + Taken(n, m.count)])
  }

  /** Second group: copy the elements in, or finish what a pop has to read. */
  function SecondStores<T>(call: Call<T>, m: Memory<T>, out: seq<T>, n: nat): Local<T>
    requires m.header + m.count + call.Size() <= |m.cells| || !call.PushBack?
    requires m.header + call.Size() <= |m.cells| || !call.PushFront?
    requires call.PopBack? ==> m.header + m.count + n <= |m.cells|
    requires call.PopFront? ==> n <= m.count
  {
    match call
    case PushBack(items) => Local(m.(cells := Overwrite(m.cells, m.header + m.count, items)), out)
    case PushFront(items) => Local(m.(cells := Overwrite(m.cells, m.header, items)), out)
    case PopBack(_) => Local(m, m.cells[m.header + m.count..m.header + m.count + n])
    case PopFront(_) => Local(m.(count := m.count - n), out)
  }

  /** Last group: the new count of a push, the new header of a pop. */
  function LastStores<T>(call: Call<T>, m: Memory<T>, n: nat): Memory<T> {
    match call
    case PushBack(items) => m.(count := m.count + |items|)
    case PushFront(items) => m.(count := m.count + |items|)
    case PopBack(_) => if m.count == 0 then m.(header := 0) else m
    case PopFront(_) => m.(header := if m.count == 0 then 0 else m.header + n)
  }

  // Threads

  /** `since` is the length of the history when the call was made; `pc` counts the groups of stores done. */
  datatype Thread<T> =
    | Idle
    | Spinning(call: Call<T>, cycle: nat, budget: nat, failed: nat, since: nat)
    | Inside(call: Call<T>, cycle: nat, since: nat, pc: nat, n: nat, out: seq<T>)

  /** A finished call; `place` is its index in the history, where its release put it. */
  datatype Finished<T> =
    Finished(call: Call<T>, cycle: nat, answer: Answer<T>, failed: nat, since: nat, until: nat, place: Option<nat>)

  datatype State<T> = State(
    owner: Option<nat>,
    memory: Memory<T>,
    threads: map<nat, Thread<T>>,
    history: seq<Entry<T>>,
    finished: seq<Finished<T>>)
  {
    function Of(t: nat): Thread<T> {
      if t in threads then threads[t] else Idle
    }
  }

  datatype Action<T> =
    | Invoke(t: nat, call: Call<T>, cycle: nat)
    | CompareExchange(t: nat)
    | Stores(t: nat, junk: T)
    | Release(t: nat)

  function Initial<T>(cells: seq<T>): State<T> {
    State(None, Memory(0, 0, cells), map[], [], [])
  }

  predicate Enabled<T>(s: State<T>, a: Action<T>) {
    match a
    case Invoke(t, _, _) => s.Of(t).Idle?
    case CompareExchange(t) => s.Of(t).Spinning?
    case Stores(t, _) => s.Of(t).Inside? && s.Of(t).pc < 3
    case Release(t) => s.Of(t).Inside? && s.Of(t).pc == 3
  }

  /** The answer of a call whose body is through. */
  function AnswerOf<T>(th: Thread<T>): Answer<T>
    requires th.Inside?
  {
    Answer(th.n, th.out)
  }

  /** The stores of thread t, which fall outside the buffer only if the invariant is broken. */
  ghost predicate StoresInBounds<T>(s: State<T>, t: nat)
    requires s.Of(t).Inside?
  {
    var th, m := s.Of(t), s.memory;
    && (th.pc == 0 ==> m.header + m.count <= |m.cells|)
    && (th.pc == 1 ==>
          match th.call
          case PushBack(items) => m.header + m.count + |items| <= |m.cells|
          case PushFront(items) => m.header + |items| <= |m.cells|
          case PopBack(_) => m.header + m.count + th.n <= |m.cells|
          case PopFront(_) => th.n <= m.count)
  }

  ghost function Next<T>(s: State<T>, a: Action<T>): State<T>
    requires Enabled(s, a) && (a.Stores? ==> StoresInBounds(s, a.t))
  {
    match a
    case Invoke(t, call, cycle) =>
      if call.Size() == 0 then
        s.(finished := s.finished + [Finished(call, cycle, Answer(0, []), 0, |s.history|, |s.history|, None)])
      else
        s.(threads := s.threads[t := Spinning(call, cycle, cycle, 0, |s.history|)])
    case CompareExchange(t) =>
      var th := s.Of(t);
      if s.owner == None then
        s.(owner := Some(t),
           threads := s.threads[t := Inside(th.call, th.cycle, th.since, 0, 0, [])])
      else if th.budget > 1 then
        s.(threads := s.threads[t := th.(budget := th.budget - 1, failed := th.failed + 1)])
      else
        s.(threads := s.threads[t := Idle],
           finished := s.finished
                       + [Finished(th.call, th.cycle, Answer(0, []), th.failed + 1, th.since, |s.history|, None)])
    case Stores(t, junk) =>
      var th := s.Of(t);
      if th.pc == 0 then
        var l := FirstStores(th.call, s.memory, junk);
        var n := if th.call.PushBack? || th.call.PushFront? then th.call.Size() else Taken(th.call.n, s.memory.count);
        s.(memory := l.memory, threads := s.threads[t := th.(pc := 1, n := n, out := l.out)])
      else if th.pc == 1 then
        var l := SecondStores(th.call, s.memory, th.out, th.n);
        s.(memory := l.memory, threads := s.threads[t := th.(pc := 2, out := l.out)])
      else
        s.(memory := LastStores(th.call, s.memory, th.n), threads := s.threads[t := th.(pc := 3)])
    case Release(t) =>
      var th := s.Of(t);
      State(None, s.memory, s.threads[t := Idle], s.history + [Entry(th.call, AnswerOf(th))],
            s.finished + [Finished(th.call, th.cycle, AnswerOf(th), 0, th.since, |s.history| + 1, Some(|s.history|))])
  }

  // The invariant

  /** How far the owner has got, relative to the sequence `xs` the deque held when it took the lock. */
  ghost predicate Midway<T>(th: Thread<T>, m: Memory<T>, xs: seq<T>)
    requires th.Inside?
  {
    var reply := Reply(th.call, xs);
    && th.pc <= 3
    && th.call.Size() > 0
    && (th.pc == 0 ==> th.out == [] && m.Valid() && m.count == |xs| && m.Holds(m.header, xs))
    && (th.pc > 0 ==> th.n == reply.returned)
    && match th.call
       case PushBack(items) =>
         && th.out == []
         && (th.pc == 1 ==> m.count == |xs| && m.Holds(m.header, xs) && m.header + |xs| + |items| <= |m.cells|)
         && (th.pc == 2 ==> m.count == |xs| && m.Holds(m.header, xs + items))
         && (th.pc == 3 ==> m.count == |xs + items| && m.Holds(m.header, xs + items))
       case PushFront(items) =>
         && th.out == []
         && (th.pc == 1 ==> m.count == |xs| && m.Holds(m.header + |items|, xs))
         && (th.pc == 2 ==> m.count == |xs| && m.Holds(m.header, items + xs))
         && (th.pc == 3 ==> m.count == |items + xs| && m.Holds(m.header, items + xs))
       case PopBack(n) =>
         && (th.pc == 1 ==> m.count == |Effect(th.call, xs)| && m.Holds(m.header, xs))
         && (th.pc >= 2 ==> m.count == |Effect(th.call, xs)| && th.out == reply.out)
         && (th.pc == 2 ==> m.Holds(m.header, xs))
         && (th.pc == 3 ==> m.Valid() && m.Holds(m.header, Effect(th.call, xs)))
       case PopFront(n) =>
         && (th.pc >= 1 ==> th.out == reply.out)
         && (th.pc == 1 ==> m.count == |xs| && m.Holds(m.header, xs))
         && (th.pc == 2 ==> m.count == |Effect(th.call, xs)| && m.Holds(m.header, xs))
         && (th.pc == 3 ==> m.Valid() && m.count == |Effect(th.call, xs)| && m.Holds(m.header, Effect(th.call, xs)))
  }

  /** A finished call either has its place in the history, between its call and its return, or did nothing. */
  ghost predicate Explained<T>(f: Finished<T>, history: seq<Entry<T>>) {
    && f.since <= f.until <= |history|
    && match f.place
       case Some(i) => f.since <= i < f.until && history[i] == Entry(f.call, f.answer)
       case None =>
         && f.answer == Answer(0, [])
         && (f.call.Size() > 0 ==> f.failed == if f.cycle <= 1 then 1 else f.cycle)
  }

  ghost predicate HistoryOk<T>(history: seq<Entry<T>>, finished: seq<Finished<T>>) {
    && Sequential(history)
    && (forall f <- finished :: Explained(f, history))
    && Places(finished) == seq(|history|, i => i)
  }

  ghost predicate ThreadOk<T>(th: Thread<T>, now: nat) {
    match th
    case Idle => true
    case Spinning(call, cycle, budget, failed, since) =>
      && call.Size() > 0 && since <= now
      && (if cycle == 0 then budget == 0 && failed == 0 else budget + failed == cycle && budget >= 1)
    case Inside(_, _, since, _, _, _) => since <= now
  }

  ghost predicate MemoryOk<T>(owner: Option<nat>, th: Thread<T>, m: Memory<T>, xs: seq<T>) {
    if owner == None then m.Valid() && m.count == |xs| && m.Holds(m.header, xs)
    else th.Inside? && Midway(th, m, xs)
  }

  ghost predicate Inv<T>(s: State<T>) {
    && HistoryOk(s.history, s.finished)
    && (forall t: nat :: s.Of(t).Inside? <==> s.owner == Some(t))
    && (forall t: nat :: ThreadOk(s.Of(t), |s.history|))
    && MemoryOk(s.owner, if s.owner == None then Idle else s.Of(s.owner.value), s.memory, Replay(s.history))
  }

  /** The places of the finished calls, in the order of their returns. */
  ghost function Places<T>(finished: seq<Finished<T>>): seq<nat> {
    if finished == [] then []
    else
      var last := finished[|finished| - 1].place;
      Places(finished[..|finished| - 1]) + if last.None? then [] else [last.value]
  }

  // The steps keep the invariant

  /** No store of any body falls outside the buffer. */
  lemma InvKeepsStoresInBounds<T>(s: State<T>, t: nat)
    requires Inv(s) && s.Of(t).Inside?
    ensures StoresInBounds(s, t)
  {
  }

  lemma PushBackMakesRoom<T>(items: seq<T>, m: Memory<T>, xs: seq<T>, junk: T)
    requires m.Valid() && m.count == |xs| && m.Holds(m.header, xs)
    ensures var r := FirstStores(PushBack(items), m, junk).memory;
      r.count == |xs| && r.Holds(r.header, xs) && r.header + |xs| + |items| <= |r.cells|
    ensures FirstStores(PushBack(items), m, junk).out == []
  {
  }

  lemma PushFrontMakesRoom<T>(items: seq<T>, m: Memory<T>, xs: seq<T>, junk: T)
    requires m.Valid() && m.count == |xs| && m.Holds(m.header, xs)
    ensures var r := FirstStores(PushFront(items), m, junk).memory;
      r.count == |xs| && r.Holds(r.header + |items|, xs)
    ensures FirstStores(PushFront(items), m, junk).out == []
  {
  }

  lemma FirstStoresMidway<T>(th: Thread<T>, m: Memory<T>, xs: seq<T>, junk: T, n: nat)
    requires th.Inside? && th.pc == 0 && Midway(th, m, xs)
    requires n == Reply(th.call, xs).returned
    ensures Midway(th.(pc := 1, n := n, out := FirstStores(th.call, m, junk).out), FirstStores(th.call, m, junk).memory, xs)
  {
    if th.call.PushBack? || th.call.PushFront? {
      FirstPushStoresMidway(th, m, xs, junk, n);
    } else {
      FirstPopStoresMidway(th, m, xs, junk, n);
    }
  }

  lemma FirstPushStoresMidway<T>(th: Thread<T>, m: Memory<T>, xs: seq<T>, junk: T, n: nat)
    requires th.Inside? && th.pc == 0 && Midway(th, m, xs) && (th.call.PushBack? || th.call.PushFront?)
    requires n == Reply(th.call, xs).returned
    ensures Midway(th.(pc := 1, n := n, out := FirstStores(th.call, m, junk).out), FirstStores(th.call, m, junk).memory, xs)
  {
    hide FirstStores, Effect;
    if th.call.PushBack? {
      PushBackMakesRoom(th.call.items, m, xs, junk);
    } else {
      PushFrontMakesRoom(th.call.items, m, xs, junk);
    }
  }

  lemma SliceParts<T>(cells: seq<T>, at: nat, n: nat, k: nat)
    requires at + n <= |cells| && k <= n
    ensures cells[at..at + k] == cells[at..at + n][..k] && cells[at + k..at + n] == cells[at..at + n][k..]
  {
  }

  lemma FirstPopStoresMidway<T>(th: Thread<T>, m: Memory<T>, xs: seq<T>, junk: T, n: nat)
    requires th.Inside? && th.pc == 0 && Midway(th, m, xs) && (th.call.PopBack? || th.call.PopFront?)
    requires n == Reply(th.call, xs).returned
    ensures Midway(th.(pc := 1, n := n, out := FirstStores(th.call, m, junk).out), FirstStores(th.call, m, junk).memory, xs)
  {
    hide Overwrite, Allocate;
    var k := Taken(th.call.n, m.count);
    assert m.cells[m.header..m.header + |xs|] == xs && k <= |xs|;
    SliceParts(m.cells, m.header, |xs|, k);
  }

  lemma SecondStoresMidway<T>(th: Thread<T>, m: Memory<T>, xs: seq<T>)
    requires th.Inside? && th.pc == 1 && Midway(th, m, xs)
    requires m.header + m.count + th.call.Size() <= |m.cells| || !th.call.PushBack?
    requires m.header + th.call.Size() <= |m.cells| || !th.call.PushFront?
    requires th.call.PopBack? ==> m.header + m.count + th.n <= |m.cells|
    requires th.call.PopFront? ==> th.n <= m.count
    ensures var l := SecondStores(th.call, m, th.out, th.n); Midway(th.(pc := 2, out := l.out), l.memory, xs)
  {
    if th.call.PushBack? || th.call.PushFront? {
      SecondPushStoresMidway(th, m, xs);
    } else {
      SecondPopStoresMidway(th, m, xs);
    }
  }

  lemma SecondPushStoresMidway<T>(th: Thread<T>, m: Memory<T>, xs: seq<T>)
    requires th.Inside? && th.pc == 1 && Midway(th, m, xs) && (th.call.PushBack? || th.call.PushFront?)
    requires m.header + m.count + th.call.Size() <= |m.cells| || !th.call.PushBack?
    requires m.header + th.call.Size() <= |m.cells| || !th.call.PushFront?
    ensures var l := SecondStores(th.call, m, th.out, th.n); Midway(th.(pc := 2, out := l.out), l.memory, xs)
  {
    hide Reply, Effect, Overwrite;
    if th.call.PushBack? {
      OverwriteBehind(m.cells, m.header, xs, th.call.items);
    } else {
      OverwriteBefore(m.cells, m.header, xs, th.call.items);
    }
  }

  lemma SecondPopStoresMidway<T>(th: Thread<T>, m: Memory<T>, xs: seq<T>)
    requires th.Inside? && th.pc == 1 && Midway(th, m, xs) && (th.call.PopBack? || th.call.PopFront?)
    requires th.call.PopBack? ==> m.header + m.count + th.n <= |m.cells|
    requires th.call.PopFront? ==> th.n <= m.count
    ensures var l := SecondStores(th.call, m, th.out, th.n); Midway(th.(pc := 2, out := l.out), l.memory, xs)
  {
    hide Overwrite;
    SliceParts(m.cells, m.header, |xs|, |xs| - Taken(th.call.n, |xs|));
  }

  lemma OverwriteBehind<T>(cells: seq<T>, at: nat, xs: seq<T>, items: seq<T>)
    requires at + |xs| + |items| <= |cells| && cells[at..at + |xs|] == xs
    ensures Overwrite(cells, at + |xs|, items)[at..at + |xs + items|] == xs + items
  {
    var r := Overwrite(cells, at + |xs|, items);
    assert r[at..at + |xs|] == r[..at + |xs|][at..] == cells[..at + |xs|][at..] == xs;
    assert r[at..at + |xs + items|] == r[at..at + |xs|] + r[at + |xs|..at + |xs| + |items|];
  }

  lemma OverwriteBefore<T>(cells: seq<T>, at: nat, xs: seq<T>, items: seq<T>)
    requires at + |items| + |xs| <= |cells| && cells[at + |items|..at + |items| + |xs|] == xs
    ensures Overwrite(cells, at, items)[at..at + |items + xs|] == items + xs
  {
    var r := Overwrite(cells, at, items);
    var b := at + |items|;
    assert r[b..b + |xs|] == r[b..][..|xs|] == cells[b..][..|xs|] == xs;
    assert r[at..at + |items + xs|] == r[at..b] + r[b..b + |xs|];
  }

  lemma LastStoresMidway<T>(th: Thread<T>, m: Memory<T>, xs: seq<T>)
    requires th.Inside? && th.pc == 2 && Midway(th, m, xs)
    ensures Midway(th.(pc := 3), LastStores(th.call, m, th.n), xs)
  {
    match th.call
    case PushBack(_) =>
      hide Reply, Effect;
    case PushFront(_) =>
      hide Reply, Effect;
    case PopBack(_) =>
      assert m.count < |xs| ==> m.cells[m.header..m.header + m.count] == m.cells[m.header..m.header + |xs|][..m.count];
    case PopFront(_) =>
      var n := th.n;
      assert m.cells[m.header + n..m.header + |xs|] == m.cells[m.header..m.header + |xs|][n..];
  }

  lemma HeldAtStart<T>(th: Thread<T>, m: Memory<T>, xs: seq<T>)
    requires th.Inside? && th.pc == 0 && Midway(th, m, xs)
    ensures m.Valid() && m.count == |xs|
  {
  }

  lemma StoresKeepInv<T>(s: State<T>, t: nat, junk: T)
    requires Inv(s) && Enabled(s, Stores(t, junk)) && StoresInBounds(s, t)
    ensures Inv(Next(s, Stores(t, junk)))
  {
    hide HistoryOk, FirstStores, SecondStores, LastStores, Midway, Replay;
    var th, xs := s.Of(t), Replay(s.history);
    var s' := Next(s, Stores(t, junk));
    if th.pc == 0 {
      HeldAtStart(th, s.memory, xs);
      FirstStoresMidway(th, s.memory, xs, junk, s'.Of(t).n);
    } else if th.pc == 1 {
      SecondStoresMidway(th, s.memory, xs);
    } else {
      LastStoresMidway(th, s.memory, xs);
    }
    forall u: nat
      ensures (s'.Of(u).Inside? <==> s'.owner == Some(u)) && ThreadOk(s'.Of(u), |s'.history|)
    {
      assert (s.Of(u).Inside? <==> s.owner == Some(u)) && ThreadOk(s.Of(u), |s.history|);
    }
  }

  lemma FinishWithoutPlace<T>(history: seq<Entry<T>>, finished: seq<Finished<T>>, f: Finished<T>)
    requires HistoryOk(history, finished) && Explained(f, history) && f.place == None
    ensures HistoryOk(history, finished + [f])
  {
    assert (finished + [f])[..|finished|] == finished;
  }

  lemma FinishWithPlace<T>(history: seq<Entry<T>>, finished: seq<Finished<T>>, e: Entry<T>, f: Finished<T>)
    requires HistoryOk(history, finished) && e.answer == Reply(e.call, Replay(history))
    requires f.since <= |history| && f.until == |history| + 1 && f.place == Some(|history|)
    requires e == Entry(f.call, f.answer)
    ensures HistoryOk(history + [e], finished + [f])
    ensures Replay(history + [e]) == Effect(e.call, Replay(history))
  {
    hide Reply, Effect, Sequential, Replay, Explained;
    SequentialLonger(history, e);
    forall g <- finished ensures Explained(g, history + [e]) {
      ExplainedStill(g, history, e);
    }
    ExplainedNow(history, e, f);
    assert (finished + [f])[..|finished|] == finished;
  }

  lemma SequentialLonger<T>(history: seq<Entry<T>>, e: Entry<T>)
    requires Sequential(history) && e.answer == Reply(e.call, Replay(history))
    ensures Sequential(history + [e]) && Replay(history + [e]) == Effect(e.call, Replay(history))
  {
    hide Reply, Effect;
    var h := history + [e];
    assert h[..|history|] == history;
    forall i | 0 <= i < |h|
      ensures h[i].answer == Reply(h[i].call, Replay(h[..i]))
    {
      if i < |history| {
        assert h[..i] == history[..i];
      }
    }
  }

  lemma ExplainedStill<T>(f: Finished<T>, history: seq<Entry<T>>, e: Entry<T>)
    requires Explained(f, history)
    ensures Explained(f, history + [e])
  {
  }

  lemma ExplainedNow<T>(history: seq<Entry<T>>, e: Entry<T>, f: Finished<T>)
    requires f.since <= |history| && f.until == |history| + 1 && f.place == Some(|history|)
    requires e == Entry(f.call, f.answer)
    ensures Explained(f, history + [e])
  {
  }

  /** The releasing store is the moment a call takes effect. */
  lemma ReleaseKeepsInv<T>(s: State<T>, t: nat)
    requires Inv(s) && Enabled(s, Release(t))
    ensures Inv(Next(s, Release(t)))
  {
    var th, s' := s.Of(t), Next(s, Release(t));
    assert s.owner == Some(t) && ThreadOk(th, |s.history|);
    FinishWithPlace(s.history, s.finished, Entry(th.call, AnswerOf(th)), s'.finished[|s.finished|]);
    forall u: nat
      ensures (s'.Of(u).Inside? <==> s'.owner == Some(u)) && ThreadOk(s'.Of(u), |s'.history|)
    {
      assert (s.Of(u).Inside? <==> s.owner == Some(u)) && ThreadOk(s.Of(u), |s.history|);
    }
  }

  lemma InvokeKeepsInv<T>(s: State<T>, t: nat, call: Call<T>, cycle: nat)
    requires Inv(s) && Enabled(s, Invoke(t, call, cycle))
    ensures Inv(Next(s, Invoke(t, call, cycle)))
  {
    var s' := Next(s, Invoke(t, call, cycle));
    if call.Size() == 0 {
      FinishWithoutPlace(s.history, s.finished, s'.finished[|s.finished|]);
    }
    forall u: nat
      ensures (s'.Of(u).Inside? <==> s'.owner == Some(u)) && ThreadOk(s'.Of(u), |s'.history|)
    {
      assert (s.Of(u).Inside? <==> s.owner == Some(u)) && ThreadOk(s.Of(u), |s.history|);
    }
  }

  lemma CompareExchangeKeepsInv<T>(s: State<T>, t: nat)
    requires Inv(s) && Enabled(s, CompareExchange(t))
    ensures Inv(Next(s, CompareExchange(t)))
  {
    var s' := Next(s, CompareExchange(t));
    assert ThreadOk(s.Of(t), |s.history|);
    if |s'.finished| > |s.finished| {
      FinishWithoutPlace(s.history, s.finished, s'.finished[|s.finished|]);
    }
    forall u: nat
      ensures (s'.Of(u).Inside? <==> s'.owner == Some(u)) && ThreadOk(s'.Of(u), |s'.history|)
    {
      assert (s.Of(u).Inside? <==> s.owner == Some(u)) && ThreadOk(s.Of(u), |s.history|);
    }
  }

  function SizesOf<T>(m: Memory<T>): D.Shape {
    D.Shape(|m.cells|, m.header, m.count)
  }

  lemma FirstStoresSizes<T>(call: Call<T>, m: Memory<T>, junk: T)
    requires m.Valid() && call.Size() > 0
    ensures
      SizesOf(FirstStores(call, m, junk).memory)
      == match call
         case PushBack(items) => D.PushBackGrowth(SizesOf(m), |items|).shape.(count := m.count)
         case PushFront(items) => D.PushFrontGrowth(SizesOf(m), |items|).shape.(count := m.count)
         case PopBack(n) => SizesOf(m).(count := m.count - Taken(n, m.count))
         case PopFront(_) => SizesOf(m)
  {
    match call
    case PushBack(_) =>
    case PushFront(_) =>
    case PopBack(_) =>
    case PopFront(_) =>
  }

  lemma MidwayAtStart<T>(call: Call<T>, m: Memory<T>, xs: seq<T>)
    requires m.Valid() && call.Size() > 0 && m.count == |xs| && m.Holds(m.header, xs)
    ensures Midway(Inside(call, 0, 0, 0, 0, []), m, xs)
  {
  }

  lemma LaterStoresSizes<T>(call: Call<T>, m: Memory<T>, th: Thread<T>, xs: seq<T>)
    requires th.Inside? && th.call == call && th.pc == 1 && Midway(th, m, xs)
    ensures m.header + m.count + call.Size() <= |m.cells| || !call.PushBack?
    ensures m.header + call.Size() <= |m.cells| || !call.PushFront?
    ensures call.PopBack? ==> m.header + m.count + th.n <= |m.cells|
    ensures call.PopFront? ==> th.n <= m.count
    ensures SizesOf(LastStores(call, SecondStores(call, m, th.out, th.n).memory, th.n)) ==
      match call
      case PushBack(items) => SizesOf(m).(count := m.count + |items|)
      case PushFront(items) => SizesOf(m).(count := m.count + |items|)
      case PopBack(_) => if m.count == 0 then SizesOf(m).(header := 0) else SizesOf(m)
      case PopFront(_) =>
        SizesOf(m).(header := if m.count == th.n then 0 else m.header + th.n, count := m.count - th.n)
  {
  }

  /** Run without interruption, the three groups of stores leave the sizes that SafeDeque proves for the call. */
  lemma BodiesAgreeOnSizes<T>(call: Call<T>, m: Memory<T>, xs: seq<T>, junk: T)
    requires m.Valid() && call.Size() > 0 && m.count == |xs| && m.Holds(m.header, xs)
    ensures
      var th := Inside(call, 0, 0, 1, Reply(call, xs).returned, FirstStores(call, m, junk).out);
      var first := FirstStores(call, m, junk).memory;
      && Midway(th, first, xs)
      && var second := SecondStores(call, first, th.out, th.n);
         SizesOf(LastStores(call, second.memory, th.n))
         == match call
            case PushBack(items) => D.PushBackGrowth(SizesOf(m), |items|).shape
            case PushFront(items) => D.PushFrontGrowth(SizesOf(m), |items|).shape
            case PopBack(n) => D.PopBackShape(SizesOf(m), n)
            case PopFront(n) => D.PopFrontShape(SizesOf(m), n)
  {
    hide Midway, FirstStores, SecondStores, LastStores;
    FirstStoresSizes(call, m, junk);
    MidwayAtStart(call, m, xs);
    FirstStoresMidway(Inside(call, 0, 0, 0, 0, []), m, xs, junk, Reply(call, xs).returned);
    var first := FirstStores(call, m, junk);
    LaterStoresSizes(call, first.memory, Inside(call, 0, 0, 1, Reply(call, xs).returned, first.out), xs);
  }

  // Whole runs

  /** A run: states joined by enabled actions, from an empty deque on any buffer. */
  ghost predicate IsRun<T>(states: seq<State<T>>, actions: seq<Action<T>>) {
    && |states| == |actions| + 1
    && states[0] == Initial(states[0].memory.cells)
    && forall i :: 0 <= i < |actions| ==>
         && Enabled(states[i], actions[i])
         && (actions[i].Stores? ==> (StoresInBounds(states[i], actions[i].t) ==> states[i + 1] == Next(states[i], actions[i])))
         && (!actions[i].Stores? ==> states[i + 1] == Next(states[i], actions[i]))
  }

  lemma {:induction false} RunKeepsInv<T>(states: seq<State<T>>, actions: seq<Action<T>>, k: nat)
    requires IsRun(states, actions) && k < |states|
    ensures Inv(states[k])
  {
    if k > 0 {
      RunKeepsInv(states, actions, k - 1);
      var s, a := states[k - 1], actions[k - 1];
      match a
      case Invoke(t, call, cycle) => InvokeKeepsInv(s, t, call, cycle);
      case CompareExchange(t) => CompareExchangeKeepsInv(s, t);
      case Stores(t, junk) =>
        InvKeepsStoresInBounds(s, t);
        StoresKeepInv(s, t, junk);
      case Release(t) => ReleaseKeepsInv(s, t);
    }
  }

  /** What a caller sees: the finished calls that got the lock, in the order of their returns, are the sequential run. */
  lemma Linearizable<T>(states: seq<State<T>>, actions: seq<Action<T>>, k: nat)
    requires IsRun(states, actions) && k < |states|
    ensures var s := states[k];
      && Sequential(s.history)
      && Places(s.finished) == seq(|s.history|, i => i)
      && (forall f <- s.finished :: Explained(f, s.history))
      && (forall t: nat :: s.Of(t).Inside? ==> StoresInBounds(s, t))
      && (s.owner == None ==> s.memory.count == |Replay(s.history)| && s.memory.Holds(s.memory.header, Replay(s.history)))
  {
    RunKeepsInv(states, actions, k);
    forall t: nat | states[k].Of(t).Inside?
      ensures StoresInBounds(states[k], t)
    {
      InvKeepsStoresInBounds(states[k], t);
    }
  }

  /** A call that returned before another one was made comes before it in the sequential run. */
  lemma RespectsRealTime<T>(states: seq<State<T>>, actions: seq<Action<T>>, k: nat, f: Finished<T>, g: Finished<T>)
    requires IsRun(states, actions) && k < |states|
    requires f in states[k].finished && g in states[k].finished
    requires f.place.Some? && g.place.Some? && f.until <= g.since
    ensures f.place.value < g.place.value
  {
    RunKeepsInv(states, actions, k);
    assert Explained(f, states[k].history) && Explained(g, states[k].history);
  }

  /** Only the owner of the lock changes the deque; a failed compare-exchange changes neither it nor the history. */
  lemma OnlyOwnerStores<T>(s: State<T>, a: Action<T>)
    requires Inv(s) && Enabled(s, a) && (a.Stores? ==> StoresInBounds(s, a.t))
    ensures Next(s, a).memory != s.memory ==> s.owner == Some(a.t)
    ensures a.CompareExchange? && s.owner != None ==> Next(s, a).memory == s.memory && Next(s, a).history == s.history
  {
    assert s.Of(a.t).Inside? <==> s.owner == Some(a.t);
  }
}
