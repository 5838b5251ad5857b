/** The pids controller's optimistic charge: add, compare, roll back. */
module PidsCharge {
  import opened Counting

  const EAGAIN: int := 11

  /** The counter and limit of one cgroup, and `pids_fork` as one uninterrupted call. */
  class PidsCgroup {
    var counter: int
    var limit: int

    method PidsFork() returns (r: int)
      modifies this`counter
      ensures r == if old(counter) >= limit then -11 else 0
      ensures counter == if r == 0 then old(counter) + 1 else old(counter)
    {
      counter := counter + 1;
      var newCount := counter;
      if newCount > limit {
        counter := counter - 1;
        return -EAGAIN;
      }
      return 0;
    }
  }

  /** Where one fork stands: charged but not yet compared, compared and losing, running, or over. */
  datatype Task = Added(newCount: int) | Rejecting | Live | Gone

  /** `peak` is bookkeeping the code never reads: the largest limit in force so far. */
  datatype State = State(counter: int, limit: int, peak: int, tasks: seq<Task>)

  datatype Action = Add | Compare(i: nat) | RollBack(i: nat) | Exit(i: nat) | SetLimit(limit: int)

  predicate IsLive(t: Task) { t.Live? }
  predicate IsInFlight(t: Task) { t.Added? || t.Rejecting? }
  predicate IsCharged(t: Task) { !t.Gone? }

  /** Running, or certain to run if the comparison is made under limit `l`. */
  function MayRun(l: int): Task -> bool {
    (t: Task) => t.Live? || (t.Added? && t.newCount <= l)
  }

  function Max(a: int, b: int): int { if a < b then b else a }

  /** A cgroup that starts with `live` running members. */
  function Start(live: nat, limit: int): State {
    State(live, limit, Max(limit, live), seq(live, _ => Live))
  }

  /** One atomic step of any fork, any exit, or a write to `pids.max`; a disabled step changes nothing. */
  function Apply(s: State, a: Action): State {
    match a
    case Add => s.(counter := s.counter + 1, tasks := s.tasks + [Added(s.counter + 1)])
    case Compare(i) =>
      if i < |s.tasks| && s.tasks[i].Added?
      then s.(tasks := s.tasks[i := if s.tasks[i].newCount > s.limit then Rejecting else Live])
      else s
    case RollBack(i) =>
      if i < |s.tasks| && s.tasks[i].Rejecting?
      then s.(counter := s.counter - 1, tasks := s.tasks[i := Gone])
      else s
    case Exit(i) =>
      if i < |s.tasks| && s.tasks[i].Live?
      then s.(counter := s.counter - 1, tasks := s.tasks[i := Gone])
      else s
    case SetLimit(l) => s.(limit := l, peak := Max(s.peak, l))
  }

  function ApplyAll(s: State, actions: seq<Action>): State
    decreases |actions|
  {
    if actions == [] then s else ApplyAll(Apply(s, actions[0]), actions[1..])
  }

  /** The inductive invariant: every limit from the peak up still covers all forks it would let through. */
  ghost predicate Inv(s: State) {
    && s.counter == Count(s.tasks, IsCharged)
    && s.limit <= s.peak
    && forall l: int :: s.peak <= l ==> Count(s.tasks, MayRun(l)) <= l
  }

  lemma {:induction false} StartInv(live: nat, limit: int)
    ensures Inv(Start(live, limit))
  {
    var s := Start(live, limit);
    CountAll(s.tasks, IsCharged);
    forall l: int | s.peak <= l ensures Count(s.tasks, MayRun(l)) <= l {
      CountAll(s.tasks, MayRun(l));
    }
  }

  lemma {:induction false} StepInv(s: State, a: Action)
    requires Inv(s)
    ensures Inv(Apply(s, a))
  {
    var t := Apply(s, a);
    match a
    case Add =>
      var x := Added(s.counter + 1);
      CountAppend(s.tasks, x, IsCharged);
      forall l: int | t.peak <= l ensures Count(t.tasks, MayRun(l)) <= l {
        CountAppend(s.tasks, x, MayRun(l));
        CountMonotone(s.tasks, MayRun(l), IsCharged);
      }
    case SetLimit(_) =>
    case _ =>
      if t != s {
        CountUpdate(s.tasks, a.i, t.tasks[a.i], IsCharged);
        forall l: int | t.peak <= l ensures Count(t.tasks, MayRun(l)) <= l {
          CountUpdate(s.tasks, a.i, t.tasks[a.i], MayRun(l));
        }
      }
  }

  lemma {:induction false} RunInv(s: State, actions: seq<Action>)
    requires Inv(s)
    ensures Inv(ApplyAll(s, actions))
    decreases |actions|
  {
    if actions != [] {
      StepInv(s, actions[0]);
      RunInv(Apply(s, actions[0]), actions[1..]);
    }
  }

  lemma {:induction false} CountSplit(tasks: seq<Task>)
    ensures Count(tasks, IsCharged) == Count(tasks, IsLive) + Count(tasks, IsInFlight)
  {
    if tasks != [] { CountSplit(tasks[1..]); }
  }

  /** Conservation and the limit, for every interleaving and every sequence of limit writes. */
  lemma {:induction false} ChargeIsSafe(live: nat, limit: int, actions: seq<Action>)
    ensures var s := ApplyAll(Start(live, limit), actions);
            && s.counter == Count(s.tasks, IsLive) + Count(s.tasks, IsInFlight)
            && Count(s.tasks, IsLive) <= s.peak
            && (Count(s.tasks, IsInFlight) == 0 ==> s.counter == Count(s.tasks, IsLive))
  {
    StartInv(live, limit);
    RunInv(Start(live, limit), actions);
    var s := ApplyAll(Start(live, limit), actions);
    CountSplit(s.tasks);
    CountMonotone(s.tasks, IsLive, MayRun(s.peak));
  }

  /** No limit ever written exceeds `bound`. */
  predicate LimitsWithin(actions: seq<Action>, bound: int) {
    forall a <- actions :: a.SetLimit? ==> a.limit <= bound
  }

  lemma {:induction false} PeakWithin(s: State, actions: seq<Action>, bound: int)
    requires s.peak <= bound && LimitsWithin(actions, bound)
    ensures ApplyAll(s, actions).peak <= bound
    decreases |actions|
  {
    if actions != [] { PeakWithin(Apply(s, actions[0]), actions[1..], bound); }
  }

  /** No interleaving of forks, exits and limit writes ever runs more processes than the largest limit
      in force so far allows; in particular a limit that stays put is never exceeded. */
  lemma {:induction false} LiveWithinLimits(live: nat, limit: int, actions: seq<Action>, bound: int)
    requires live <= bound && limit <= bound && LimitsWithin(actions, bound)
    ensures Count(ApplyAll(Start(live, limit), actions).tasks, IsLive) <= bound
  {
    ChargeIsSafe(live, limit, actions);
    PeakWithin(Start(live, limit), actions, bound);
  }

  /** With nobody in between, the steps of a fork do what the call does; and a fork that got in and exits again
      leaves the counter as it was. */
  lemma {:induction false} StepsOfOneCall(s: State)
    ensures var me := |s.tasks|;
            var t := Apply(Apply(s, Add), Compare(me));
            if s.counter >= s.limit
            then Apply(t, RollBack(me)) == s.(tasks := s.tasks + [Gone])
            else
              && t == s.(counter := s.counter + 1, tasks := s.tasks + [Live])
              && Apply(t, Exit(me)) == s.(tasks := s.tasks + [Gone])
  {
    var me := |s.tasks|;
    var added := s.tasks + [Added(s.counter + 1)];
    assert added[me := Live] == s.tasks + [Live] && added[me := Rejecting] == s.tasks + [Rejecting];
    assert (s.tasks + [Live])[me := Gone] == s.tasks + [Gone];
    assert (s.tasks + [Rejecting])[me := Gone] == s.tasks + [Gone];
  }

  /** The limit in force is the one written last. */
  lemma {:induction false} LastLimitIsInForce(s: State, limit: int, after: seq<Action>)
    requires forall a <- after :: !a.SetLimit?
    ensures ApplyAll(Apply(s, SetLimit(limit)), after).limit == limit
  {
    LimitKept(Apply(s, SetLimit(limit)), after);
  }

  lemma {:induction false} LimitKept(s: State, actions: seq<Action>)
    requires forall a <- actions :: !a.SetLimit?
    ensures ApplyAll(s, actions).limit == s.limit
    decreases |actions|
  {
    if actions != [] {
      assert actions[0] in actions;
      LimitKept(Apply(s, actions[0]), actions[1..]);
    }
  }

  /** Until it compares itself a fork keeps the count its add returned, whatever the others do. */
  lemma {:induction false} StaysAdded(s: State, me: nat, between: seq<Action>)
    requires me < |s.tasks| && s.tasks[me].Added? && Compare(me) !in between
    ensures var u := ApplyAll(s, between); me < |u.tasks| && u.tasks[me] == s.tasks[me]
    decreases |between|
  {
    if between != [] {
      assert between[0] in between;
      StaysAdded(Apply(s, between[0]), me, between[1..]);
    }
  }

  lemma {:induction false} StaysRejecting(s: State, me: nat, between: seq<Action>)
    requires me < |s.tasks| && s.tasks[me].Rejecting? && RollBack(me) !in between
    ensures var u := ApplyAll(s, between); me < |u.tasks| && u.tasks[me].Rejecting?
    decreases |between|
  {
    if between != [] {
      assert between[0] in between;
      StaysRejecting(Apply(s, between[0]), me, between[1..]);
    }
  }

  /** For any steps of others between its add and its compare, a fork is refused exactly when the live and
      in-flight forks at its add fill the limit read at its compare. */
  lemma {:induction false} RefusedExactlyWhenFull(live: nat, limit: int, before: seq<Action>, between: seq<Action>)
    requires Compare(|ApplyAll(Start(live, limit), before).tasks|) !in between
    ensures var s := ApplyAll(Start(live, limit), before);
            var me := |s.tasks|;
            var u := ApplyAll(Apply(s, Add), between);
            var t := Apply(u, Compare(me));
            && me < |u.tasks| && |t.tasks| == |u.tasks|
            && (t.tasks[me].Rejecting? <==> Count(s.tasks, IsLive) + Count(s.tasks, IsInFlight) >= u.limit)
            && (t.tasks[me].Live? <==> Count(s.tasks, IsLive) + Count(s.tasks, IsInFlight) < u.limit)
            && t.counter == u.counter
  {
    ChargeIsSafe(live, limit, before);
    var s := ApplyAll(Start(live, limit), before);
    StaysAdded(Apply(s, Add), |s.tasks|, between);
  }

  /** However many steps of others come before a refused fork's roll back, it takes back exactly the charge of
      that fork: the counter is again what live and in-flight forks other than this one account for. */
  lemma {:induction false} RollBackLeavesNothing(live: nat, limit: int, before: seq<Action>, me: nat,
                                                 between: seq<Action>)
    requires var s := ApplyAll(Start(live, limit), before); me < |s.tasks| && s.tasks[me].Rejecting?
    requires RollBack(me) !in between
    ensures var u := ApplyAll(ApplyAll(Start(live, limit), before), between);
            && me < |u.tasks|
            && var others := u.tasks[..me] + u.tasks[me + 1..];
               Apply(u, RollBack(me)) ==
                 u.(counter := Count(others, IsLive) + Count(others, IsInFlight), tasks := u.tasks[me := Gone])
  {
    var s := ApplyAll(Start(live, limit), before);
    var u := ApplyAll(s, between);
    StaysRejecting(s, me, between);
    StartInv(live, limit);
    RunInv(Start(live, limit), before);
    RunInv(s, between);
    CountWithout(u.tasks, me, IsCharged);
    CountSplit(u.tasks[..me] + u.tasks[me + 1..]);
  }

  /** Overlapping forks can refuse each other: both fail although nothing is running and the limit is 1. */
  lemma {:induction false} SpuriousRefusal()
    ensures var s := ApplyAll(Start(1, 1), [Add, Exit(0), Add, Compare(1), Compare(2)]);
            && s.tasks == [Gone, Rejecting, Rejecting]
            && Count(s.tasks, IsLive) == 0 && s.limit == 1
  {
    var s0 := Start(1, 1);
    var s1 := State(2, 1, 1, [Live, Added(2)]);
    var s2 := State(1, 1, 1, [Gone, Added(2)]);
    var s3 := State(2, 1, 1, [Gone, Added(2), Added(2)]);
    var s4 := State(2, 1, 1, [Gone, Rejecting, Added(2)]);
    var s5 := State(2, 1, 1, [Gone, Rejecting, Rejecting]);
    assert Apply(s0, Add) == s1 && Apply(s1, Exit(0)) == s2 && Apply(s2, Add) == s3;
    assert Apply(s3, Compare(1)) == s4 && Apply(s4, Compare(2)) == s5;
    assert ApplyAll(s4, [Compare(2)]) == s5;
    assert ApplyAll(s3, [Compare(1), Compare(2)]) == s5;
    assert ApplyAll(s2, [Add, Compare(1), Compare(2)]) == s5;
    assert ApplyAll(s1, [Exit(0), Add, Compare(1), Compare(2)]) == s5;
    CountAll(s5.tasks, IsLive);
  }
}
