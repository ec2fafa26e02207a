/**
  Bounds over whole runs of a deque, proved on the sizes that each method of
  SafeDeque.SafeDeque is proved to produce: how large the buffer can become, and how many
  elements the pushes of a run copy inside the deque.
*/
module DequeRuns {
  import opened SafeDeque

  /** One call; the bulk sizes are positive, as an empty bulk call returns at once. */
  datatype Op = PushBack(n: pos) | PushFront(n: pos) | PopBack(n: pos) | PopFront(n: pos) | Clear | ShrinkToFit

  type pos = n: nat | n > 0 witness 1

  function Step(s: Shape, op: Op): (g: Growth)
    requires s.Valid()
    ensures g.shape.Valid()
  {
    match op
    case PushBack(n) => PushBackGrowth(s, n)
    case PushFront(n) => PushFrontGrowth(s, n)
    case PopBack(n) => Growth(PopBackShape(s, n), 0)
    case PopFront(n) => Growth(PopFrontShape(s, n), 0)
    case Clear => Growth(Shape(s.capacity, 0, 0), 0)
    case ShrinkToFit => Growth(Shape(s.count, 0, s.count), 0)
  }

  function Run(s: Shape, ops: seq<Op>): (g: Growth)
    requires s.Valid()
    ensures g.shape.Valid()
    decreases |ops|
  {
    if ops == [] then Growth(s, 0)
    else
      var first := Step(s, ops[0]);
      Run(first.shape, ops[1..]).After(first.copied)
  }

  /** The largest number of elements held at any moment of the run. */
  function Peak(s: Shape, ops: seq<Op>): nat
    requires s.Valid()
    decreases |ops|
  {
    if ops == [] then s.count else Max(s.count, Peak(Step(s, ops[0]).shape, ops[1..]))
  }

  /** The number of elements a run pushes. */
  function Pushed(ops: seq<Op>): nat {
    if ops == [] then 0
    else (if ops[0].PushBack? || ops[0].PushFront? then ops[0].n else 0) + Pushed(ops[1..])
  }

  function Max(a: nat, b: nat): nat {
    if a <= b then b else a
  }

  /**
    A push takes a new buffer, twice as large and the pushed elements larger, exactly if its end of
    the buffer has no room and the content takes too much of the rest; otherwise it copies at most
    the content within the buffer it has.
  */
  lemma GrowsExactly(s: Shape, n: pos)
    requires s.Valid()
    ensures var g := PushBackGrowth(s, n);
      && (g.shape.capacity == 2 * s.capacity + n
          <==> s.header + s.count + n > s.capacity && 2 * s.count + n >= s.capacity)
      && (g.shape.capacity != 2 * s.capacity + n ==> g.shape.capacity == s.capacity)
      && (g.copied != 0 ==> g.copied == s.count && s.header + s.count + n > s.capacity)
    ensures var g := PushFrontGrowth(s, n);
      && (g.shape.capacity == 2 * s.capacity + n
          <==> n > s.header && (s.count + n >= s.capacity || s.count >= s.capacity / 2))
      && (g.shape.capacity != 2 * s.capacity + n ==> g.shape.capacity == s.capacity)
      && (g.copied != 0 ==> g.copied == s.count && n > s.header)
  {
  }

  /** Whatever the calls, the buffer never exceeds four times the peak content (or its first size). */
  lemma {:induction false} MemoryBound(s: Shape, ops: seq<Op>)
    requires s.Valid()
    ensures var end := Run(s, ops).shape;
      end.capacity <= Max(s.capacity, 4 * Peak(s, ops)) && end.header + end.count <= end.capacity
    decreases |ops|
  {
    if ops != [] {
      var next := Step(s, ops[0]).shape;
      assert next.capacity <= Max(s.capacity, 4 * next.count);
      MemoryBound(next, ops[1..]);
      assert next.count <= Peak(next, ops[1..]);
    }
  }

  // Pushes at the back only

  predicate BackOnly(ops: seq<Op>) {
    forall op <- ops :: op.PushBack? || op.PopBack? || op.PopFront?
  }

  /** Credit held by a shape: how far the end of the elements lies past the middle of the buffer. */
  function BackCredit(s: Shape): nat {
    if s.capacity <= 2 * (s.header + s.count) then 2 * (s.header + s.count) - s.capacity else 0
  }

  lemma BackStep(s: Shape, op: Op)
    requires s.Valid() && (op.PushBack? || op.PopBack? || op.PopFront?)
    ensures Step(s, op).copied + BackCredit(Step(s, op).shape) <= 2 * Pushed([op]) + BackCredit(s)
  {
  }

  /** Every run of back pushes and pops copies at most two elements per element pushed. */
  lemma {:induction false} BackPushesAmortised(s: Shape, ops: seq<Op>)
    requires s.Valid() && BackOnly(ops)
    ensures Run(s, ops).copied + BackCredit(Run(s, ops).shape) <= 2 * Pushed(ops) + BackCredit(s)
    ensures s.count == 0 ==> Run(s, ops).copied <= 2 * Pushed(ops)
    decreases |ops|
  {
    if ops != [] {
      assert ops[0] in ops;
      BackStep(s, ops[0]);
      BackPushesAmortised(Step(s, ops[0]).shape, ops[1..]);
    }
  }

  // Pushes at the front only

  predicate FrontOnly(ops: seq<Op>) {
    forall op <- ops :: op.PushFront? || op.PopBack? || op.PopFront?
  }

  /** Credit held by a shape: how far the start of the elements lies before the middle of the buffer. */
  function FrontCredit(s: Shape): nat {
    if s.count > 0 && 2 * s.header <= s.capacity then s.capacity - 2 * s.header else 0
  }

  lemma FrontStep(s: Shape, op: Op)
    requires s.Valid() && (op.PushFront? || op.PopBack? || op.PopFront?)
    ensures Step(s, op).copied + FrontCredit(Step(s, op).shape) <= 3 * Pushed([op]) + FrontCredit(s)
  {
  }

  /** Every run of front pushes and pops copies at most three elements per element pushed. */
  lemma {:induction false} FrontPushesAmortised(s: Shape, ops: seq<Op>)
    requires s.Valid() && FrontOnly(ops)
    ensures Run(s, ops).copied + FrontCredit(Run(s, ops).shape) <= 3 * Pushed(ops) + FrontCredit(s)
    ensures s.count == 0 ==> Run(s, ops).copied <= 3 * Pushed(ops)
    decreases |ops|
  {
    if ops != [] {
      assert ops[0] in ops;
      FrontStep(s, ops[0]);
      FrontPushesAmortised(Step(s, ops[0]).shape, ops[1..]);
    }
  }

  // Pushes at both ends: no such bound

  function Alternate(rounds: nat): seq<Op> {
    if rounds == 0 then [] else Cycle(Alternate(rounds - 1))
  }

  function Cycle(rest: seq<Op>): seq<Op> {
    FrontHalf(BackHalf(rest))
  }

  function FrontHalf(rest: seq<Op>): seq<Op> {
    [PushFront(1)] + ([PopFront(1)] + rest)
  }

  function BackHalf(rest: seq<Op>): seq<Op> {
    [PushBack(1)] + ([PopBack(1)] + rest)
  }

  lemma RunCons(s: Shape, op: Op, rest: seq<Op>)
    requires s.Valid()
    ensures Run(s, [op] + rest) == Run(Step(s, op).shape, rest).After(Step(s, op).copied)
    ensures Pushed([op] + rest) == Pushed([op]) + Pushed(rest)
  {
    assert ([op] + rest)[1..] == rest;
  }

  lemma RunFrontHalf(s: Shape, rest: seq<Op>)
    requires s.Valid() && s.header == 0 < s.count && 2 * s.count + 1 < s.capacity
    ensures Run(s, FrontHalf(rest)) == Run(s.(header := s.capacity - s.count), rest).After(s.count)
    ensures Pushed(FrontHalf(rest)) == 1 + Pushed(rest)
  {
    var s1 := Shape(s.capacity, s.capacity - s.count - 1, s.count + 1);
    assert PushFrontGrowth(s, 1) == Growth(s1, s.count) && PopFrontShape(s1, 1) == s.(header := s.capacity - s.count);
    RunCons(s1, PopFront(1), rest);
    RunCons(s, PushFront(1), [PopFront(1)] + rest);
  }

  lemma RunBackHalf(s: Shape, rest: seq<Op>)
    requires s.Valid() && s.header == s.capacity - s.count && 0 < s.count && 2 * s.count + 1 < s.capacity
    ensures Run(s, BackHalf(rest)) == Run(s.(header := 0), rest).After(s.count)
    ensures Pushed(BackHalf(rest)) == 1 + Pushed(rest)
  {
    RunCons(Shape(s.capacity, 0, s.count + 1), PopBack(1), rest);
    RunCons(s, PushBack(1), [PopBack(1)] + rest);
  }

  /** Alternating ends in a buffer less than half full copies the whole content at every push. */
  lemma {:induction false} AlternationCopiesAll(s: Shape, rounds: nat)
    requires s.Valid() && s.header == 0 < s.count && 2 * s.count + 1 < s.capacity
    ensures Run(s, Alternate(rounds)) == Growth(s, s.count * (2 * rounds))
    ensures Pushed(Alternate(rounds)) == 2 * rounds
  {
    if rounds > 0 {
      hide Run, Pushed, FrontHalf, BackHalf;
      AlternationCopiesAll(s, rounds - 1);
      RunBackHalf(s.(header := s.capacity - s.count), Alternate(rounds - 1));
      RunFrontHalf(s, BackHalf(Alternate(rounds - 1)));
      TwiceMore(s.count, 2 * rounds - 2);
    } else {
      TwiceMore(s.count, 0);
    }
  }

  lemma TwiceMore(n: nat, k: nat)
    ensures n * k + n + n == n * (k + 2) && n * 0 == 0
  {
  }

  /** Growing a fresh deque, and shrinking it again to a small content, copies nothing. */
  lemma GrowAndShrink(capacity: nat, n: pos, ops: seq<Op>)
    ensures var m := 2 * n + 2;
      exists grown :: grown >= m &&
        Run(Shape(capacity, 0, 0), [PushBack(m)] + ([PopBack(m - n)] + ops)) == Run(Shape(grown, 0, n), ops)
    ensures Pushed([PushBack(2 * n + 2)] + ([PopBack(n + 2)] + ops)) == 2 * n + 2 + Pushed(ops)
  {
    hide Run;
    var m := 2 * n + 2;
    var grown := if capacity >= m then capacity else m + 2 * capacity;
    var s := Shape(capacity, 0, 0);
    RunCons(s, PushBack(m), [PopBack(m - n)] + ops);
    assert Step(s, PushBack(m)) == Growth(Shape(grown, 0, m), 0);
    RunCons(Shape(grown, 0, m), PopBack(m - n), ops);
    assert Step(Shape(grown, 0, m), PopBack(m - n)) == Growth(Shape(grown, 0, n), 0);
    OnePush(m);
  }

  lemma OnePush(m: pos)
    ensures Pushed([PushBack(m)]) == m && forall k: pos :: Pushed([PopBack(k)]) == 0
  {
    assert [PushBack(m)][1..] == [];
    assert forall k: pos :: [PopBack(k)][1..] == [];
  }

  /** No constant bounds the copying per element pushed when a fresh deque is pushed at both ends. */
  lemma MixedPushesNotAmortised(capacity: nat, c: nat) returns (ops: seq<Op>)
    ensures Run(Shape(capacity, 0, 0), ops).copied > c * Pushed(ops)
  {
    hide Run, Pushed, Alternate;
    var n: pos := c + 1;
    var m := 2 * n + 2;
    var rounds := c * m + 1;
    ops := [PushBack(m)] + ([PopBack(m - n)] + Alternate(rounds));
    GrowAndShrink(capacity, n, Alternate(rounds));
    var grown :| grown >= m && Run(Shape(capacity, 0, 0), ops) == Run(Shape(grown, 0, n), Alternate(rounds));
    AlternationCopiesAll(Shape(grown, 0, n), rounds);
    Outweighs(c, m, rounds);
  }

  lemma Outweighs(c: nat, m: nat, rounds: nat)
    requires rounds == c * m + 1
    ensures (c + 1) * (2 * rounds) > c * (m + 2 * rounds)
  {
    var r := 2 * rounds;
    assert (c + 1) * r == c * r + r;
    assert c * (m + r) == c * m + c * r;
  }
}
