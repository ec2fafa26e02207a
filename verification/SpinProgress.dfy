/**
  Why calls on the shared deque give up, and that they get through (include/commutil.h,
  include/safequeue.h): a call gives up only after its whole spin budget, spent against other
  owners of the lock; the owner always gets to its release; and a call that finds the lock free
  finishes by its own actions.
*/
module SpinProgress {
  import opened Wrappers
  import opened SpinDeque

  // Giving up

  /** How often thread t tried the lock from action `start` on, before action `end`. */
  ghost function Tries<T>(actions: seq<Action<T>>, t: nat, start: nat, end: nat): nat
    requires start <= end <= |actions|
    decreases end
  {
    if start == end then 0
    else Tries(actions, t, start, end - 1) + if actions[end - 1] == CompareExchange(t) then 1 else 0
  }

  /** At each try from action `start` on and before action `end`, some other thread had the lock. */
  ghost predicate AgainstOthers<T>(states: seq<State<T>>, actions: seq<Action<T>>, t: nat, start: nat, end: nat)
    requires start <= end <= |actions| < |states|
  {
    forall j :: start <= j < end && actions[j] == CompareExchange(t) ==> states[j].owner.Some? && states[j].owner != Some(t)
  }

  /** Thread t did nothing else than try the lock. */
  ghost predicate OnlyTries<T>(actions: seq<Action<T>>, t: nat, start: nat, end: nat)
    requires start <= end <= |actions|
  {
    forall j :: start <= j < end && actions[j].t == t ==> actions[j] == CompareExchange(t)
  }

  /** Each action of a run leads to the state its definition gives. */
  lemma StepOf<T>(states: seq<State<T>>, actions: seq<Action<T>>, k: nat)
    requires IsRun(states, actions) && k < |actions|
    ensures Enabled(states[k], actions[k]) && (actions[k].Stores? ==> StoresInBounds(states[k], actions[k].t))
    ensures states[k + 1] == Next(states[k], actions[k])
  {
    RunKeepsInv(states, actions, k);
    if actions[k].Stores? {
      InvKeepsStoresInBounds(states[k], actions[k].t);
    }
  }

  /** A thread that spins after an action was made to by its call, or was spinning and lost a try or did nothing. */
  lemma StillSpinning<T>(s: State<T>, a: Action<T>, t: nat)
    requires Enabled(s, a) && (a.Stores? ==> StoresInBounds(s, a.t)) && Next(s, a).Of(t).Spinning?
    requires a != Invoke(t, Next(s, a).Of(t).call, Next(s, a).Of(t).cycle)
    ensures s.Of(t).Spinning? && s.Of(t).call == Next(s, a).Of(t).call && s.Of(t).cycle == Next(s, a).Of(t).cycle
    ensures a.t == t ==> a == CompareExchange(t) && s.owner != None
    ensures Next(s, a).Of(t).failed == s.Of(t).failed + if a == CompareExchange(t) then 1 else 0
  {
    hide FirstStores, SecondStores, LastStores, StoresInBounds;
  }

  lemma StartIsIdle<T>(states: seq<State<T>>, actions: seq<Action<T>>, t: nat)
    requires IsRun(states, actions)
    ensures states[0].Of(t).Idle?
  {
  }

  /** A spinning thread does not own the lock. */
  lemma SpinnerIsNoOwner<T>(s: State<T>, t: nat)
    requires Inv(s) && s.Of(t).Spinning?
    ensures s.owner != Some(t)
  {
  }

  /** The action before a thread is seen spinning: its call, or one after which it was spinning already. */
  lemma SpinningBefore<T>(states: seq<State<T>>, actions: seq<Action<T>>, k: nat, t: nat)
    requires IsRun(states, actions) && k < |actions| && states[k + 1].Of(t).Spinning?
    ensures var s, th, a := states[k], states[k + 1].Of(t), actions[k];
      if a == Invoke(t, th.call, th.cycle) then th.failed == 0
      else
        && s.Of(t).Spinning? && s.Of(t).call == th.call && s.Of(t).cycle == th.cycle
        && (a.t == t ==> a == CompareExchange(t) && s.owner.Some? && s.owner != Some(t))
        && th.failed == s.Of(t).failed + if a == CompareExchange(t) then 1 else 0
  {
    hide IsRun, Inv;
    RunLength(states, actions);
    StepOf(states, actions, k);
    var th := states[k + 1].Of(t);
    if actions[k] == Invoke(t, th.call, th.cycle) {
    } else {
      StillSpinning(states[k], actions[k], t);
      RunKeepsInv(states, actions, k);
      SpinnerIsNoOwner(states[k], t);
    }
  }

  lemma RunLength<T>(states: seq<State<T>>, actions: seq<Action<T>>)
    requires IsRun(states, actions)
    ensures |states| == |actions| + 1
  {
  }

  /** A spinning thread has done nothing but lose tries to other owners since it made its call. */
  lemma {:induction false} SpinningSince<T>(states: seq<State<T>>, actions: seq<Action<T>>, k: nat, t: nat) returns (b: nat)
    requires IsRun(states, actions) && k <= |actions| < |states| && states[k].Of(t).Spinning?
    ensures b < k && actions[b] == Invoke(t, states[k].Of(t).call, states[k].Of(t).cycle)
    ensures OnlyTries(actions, t, b + 1, k) && AgainstOthers(states, actions, t, b + 1, k)
    ensures Tries(actions, t, b + 1, k) == states[k].Of(t).failed
  {
    hide IsRun;
    if k == 0 {
      StartIsIdle(states, actions, t);
      assert false;
    } else {
      SpinningBefore(states, actions, k - 1, t);
      if actions[k - 1] == Invoke(t, states[k].Of(t).call, states[k].Of(t).cycle) {
        b := k - 1;
      } else {
        b := SpinningSince(states, actions, k - 1, t);
      }
    }
  }

  /** Which action finished a call. */
  lemma {:induction false} FinishedBy<T>(states: seq<State<T>>, actions: seq<Action<T>>, k: nat, i: nat) returns (j: nat)
    requires IsRun(states, actions) && k <= |actions| < |states| && i < |states[k].finished|
    ensures j < k && states[j + 1].finished == states[j].finished + [states[k].finished[i]]
  {
    hide IsRun;
    if k == 0 {
      StartIsEmpty(states, actions);
      assert false;
    } else {
      StepOf(states, actions, k - 1);
      OneMoreFinished(states[k - 1], actions[k - 1]);
      var before, after := states[k - 1].finished, states[k].finished;
      if i < |before| {
        assert before[i] == after[i];
        j := FinishedBy(states, actions, k - 1, i);
      } else {
        j := k - 1;
        assert after == before + [after[i]];
      }
    }
  }

  lemma StartIsEmpty<T>(states: seq<State<T>>, actions: seq<Action<T>>)
    requires IsRun(states, actions)
    ensures states[0].finished == []
  {
  }

  lemma OneMoreFinished<T>(s: State<T>, a: Action<T>)
    requires Enabled(s, a) && (a.Stores? ==> StoresInBounds(s, a.t))
    ensures s.finished <= Next(s, a).finished && |Next(s, a).finished| <= |s.finished| + 1
  {
    hide FirstStores, SecondStores, LastStores, StoresInBounds;
  }

  /**
    A call of positive size that finished without a place in the history had made as many tries as
    its cycle, one at least, all of them since its call and each while another thread had the lock.
  */
  lemma GaveUpAgainstOthers<T>(states: seq<State<T>>, actions: seq<Action<T>>, k: nat, i: nat) returns (b: nat, j: nat)
    requires IsRun(states, actions) && k <= |actions| < |states| && i < |states[k].finished|
    requires states[k].finished[i].place == None && states[k].finished[i].call.Size() > 0
    ensures var f := states[k].finished[i];
      && b < j < k && actions[b] == Invoke(actions[j].t, f.call, f.cycle)
      && states[j + 1].finished == states[j].finished + [f]
      && OnlyTries(actions, actions[j].t, b + 1, j + 1) && AgainstOthers(states, actions, actions[j].t, b + 1, j + 1)
      && Tries(actions, actions[j].t, b + 1, j + 1) == if f.cycle == 0 then 1 else f.cycle
  {
    hide IsRun, Inv;
    var f := states[k].finished[i];
    j := FinishedBy(states, actions, k, i);
    StepOf(states, actions, j);
    var s, a := states[j], actions[j];
    LastTry(s, a, f);
    RunKeepsInv(states, actions, j);
    SpinnerIsNoOwner(s, a.t);
    BudgetSpent(s, a.t);
    b := SpinningSince(states, actions, j, a.t);
  }

  /** Such a call is finished by a lost try, its last. */
  lemma LastTry<T>(s: State<T>, a: Action<T>, f: Finished<T>)
    requires Enabled(s, a) && (a.Stores? ==> StoresInBounds(s, a.t))
    requires Next(s, a).finished == s.finished + [f] && f.place == None && f.call.Size() > 0
    ensures a == CompareExchange(a.t) && s.Of(a.t).Spinning? && s.owner.Some? && s.Of(a.t).budget <= 1
    ensures f.call == s.Of(a.t).call && f.cycle == s.Of(a.t).cycle && f.failed == s.Of(a.t).failed + 1
  {
    hide FirstStores, SecondStores, LastStores, StoresInBounds;
    var g := Next(s, a).finished;
    assert |g| == |s.finished| + 1 && g[|s.finished|] == f;
  }

  lemma BudgetSpent<T>(s: State<T>, t: nat)
    requires Inv(s) && s.Of(t).Spinning?
    ensures var th := s.Of(t); if th.cycle == 0 then th.failed == 0 else th.budget + th.failed == th.cycle && th.budget >= 1
  {
    assert ThreadOk(s.Of(t), |s.history|);
  }

  // Getting through

  /** What the owner does from the lock to its release. */
  function Body<T>(t: nat, junk: T): seq<Action<T>> {
    [Stores(t, junk), Stores(t, junk), Stores(t, junk), Release(t)]
  }

  /** What the actions lead to, if each is enabled in its turn. */
  ghost function After<T>(s: State<T>, actions: seq<Action<T>>): Option<State<T>>
    decreases |actions|
  {
    if actions == [] then Some(s)
    else if Enabled(s, actions[0]) && (actions[0].Stores? ==> StoresInBounds(s, actions[0].t)) then
      After(Next(s, actions[0]), actions[1..])
    else None
  }

  lemma AfterOne<T>(s: State<T>, a: Action<T>, rest: seq<Action<T>>)
    requires Enabled(s, a) && (a.Stores? ==> StoresInBounds(s, a.t))
    ensures After(s, [a] + rest) == After(Next(s, a), rest)
  {
    assert ([a] + rest)[1..] == rest;
  }

  /** The call answered what the deque's sequence calls for, at the end of the history; the lock is free again. */
  ghost predicate Served<T>(e: Option<State<T>>, s: State<T>, t: nat, call: Call<T>, cycle: nat, since: nat) {
    var reply := Reply(call, Replay(s.history));
    && e.Some?
    && e.value.owner == None && e.value.Of(t).Idle?
    && e.value.history == s.history + [Entry(call, reply)]
    && e.value.finished == s.finished + [Finished(call, cycle, reply, 0, since, |s.history| + 1, Some(|s.history|))]
  }

  lemma OneStore<T>(s: State<T>, t: nat, junk: T)
    requires Inv(s) && s.owner == Some(t) && s.Of(t).Inside? && s.Of(t).pc < 3
    ensures StoresInBounds(s, t)
    ensures var z := Next(s, Stores(t, junk));
      && Inv(z) && z.owner == Some(t) && z.history == s.history && z.finished == s.finished && z.Of(t).Inside?
      && z.Of(t).pc == s.Of(t).pc + 1 && z.Of(t).call == s.Of(t).call && z.Of(t).cycle == s.Of(t).cycle
      && z.Of(t).since == s.Of(t).since
  {
    hide Inv, FirstStores, SecondStores, LastStores, StoresInBounds;
    InvKeepsStoresInBounds(s, t);
    StoresKeepInv(s, t, junk);
  }

  lemma OwnerIsInside<T>(s: State<T>, t: nat)
    requires Inv(s) && s.owner == Some(t)
    ensures s.Of(t).Inside? && s.Of(t).pc <= 3
  {
    assert s.Of(t).Inside? <==> s.owner == Some(t);
  }

  lemma ReleaseServes<T>(s: State<T>, t: nat)
    requires Inv(s) && s.owner == Some(t) && s.Of(t).Inside? && s.Of(t).pc == 3
    ensures Served(Some(Next(s, Release(t))), s, t, s.Of(t).call, s.Of(t).cycle, s.Of(t).since)
  {
    hide Replay, HistoryOk, Effect;
    assert s.Of(t).Inside? <==> s.owner == Some(t);
    assert AnswerOf(s.Of(t)) == Reply(s.Of(t).call, Replay(s.history));
  }

  /** From wherever the owner is, its own remaining actions serve its call and free the lock. */
  lemma {:induction false} OwnerGetsThrough<T>(s: State<T>, t: nat, junk: T)
    requires Inv(s) && s.owner == Some(t)
    ensures s.Of(t).Inside? && s.Of(t).pc <= 3
    ensures Served(After(s, Body(t, junk)[s.Of(t).pc..]), s, t, s.Of(t).call, s.Of(t).cycle, s.Of(t).since)
    decreases 3 - s.Of(t).pc
  {
    hide Inv, StoresInBounds, Reply, Replay;
    OwnerIsInside(s, t);
    var pc := s.Of(t).pc;
    assert Body(t, junk)[pc..] == [Body(t, junk)[pc]] + Body(t, junk)[pc + 1..];
    if pc < 3 {
      OneStore(s, t, junk);
      AfterOne(s, Stores(t, junk), Body(t, junk)[pc + 1..]);
      OwnerGetsThrough(Next(s, Stores(t, junk)), t, junk);
    } else {
      var none: seq<Action<T>> := [];
      assert Body(t, junk)[4..] == none;
      AfterOne(s, Release(t), none);
      ReleaseServes(s, t);
    }
  }

  lemma LockIsTaken<T>(s: State<T>, t: nat)
    requires Inv(s) && s.owner == None && s.Of(t).Spinning?
    ensures var z, th := Next(s, CompareExchange(t)), s.Of(t);
      Inv(z) && z.owner == Some(t) && z.history == s.history && z.finished == s.finished
      && z.Of(t) == Inside(th.call, th.cycle, th.since, 0, 0, [])
  {
    hide Inv;
    CompareExchangeKeepsInv(s, t);
  }

  /** Whenever the lock is free, any thread that tries it gets through by five actions of its own. */
  lemma GetsThroughAlone<T>(states: seq<State<T>>, actions: seq<Action<T>>, k: nat, t: nat, junk: T)
    requires IsRun(states, actions) && k < |states| && states[k].owner == None && states[k].Of(t).Spinning?
    ensures var s, th := states[k], states[k].Of(t);
      Served(After(s, [CompareExchange(t)] + Body(t, junk)), s, t, th.call, th.cycle, th.since)
  {
    hide IsRun, Inv, Reply, Replay, Body;
    RunKeepsInv(states, actions, k);
    var s := states[k];
    LockIsTaken(s, t);
    AfterOne(s, CompareExchange(t), Body(t, junk));
    OwnerGetsThrough(Next(s, CompareExchange(t)), t, junk);
    assert Body(t, junk)[0..] == Body(t, junk);
  }

  /** Whenever a thread owns the lock, its own remaining actions, four at most, serve its call and free the lock. */
  lemma NeverBlocked<T>(states: seq<State<T>>, actions: seq<Action<T>>, k: nat, t: nat, junk: T)
    requires IsRun(states, actions) && k < |states| && states[k].owner == Some(t)
    ensures var s, th := states[k], states[k].Of(t);
      th.Inside? && th.pc <= 3 && Served(After(s, Body(t, junk)[th.pc..]), s, t, th.call, th.cycle, th.since)
  {
    hide IsRun, Inv;
    RunKeepsInv(states, actions, k);
    OwnerGetsThrough(states[k], t, junk);
  }
}
