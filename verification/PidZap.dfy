/** `zap_pid_ns_processes` one number at a time, between the steps of everybody else. */
module PidZap {
  import opened PidNamespaces

  /** `scans` maps each closed namespace to the number its scan looks at next. */
  datatype System = System(pids: State, tasks: set<nat>, pending: set<nat>, scans: map<nat, int>)

  datatype Step = Table(a: Action) | Attach(p: nat) | Exit(p: nat) | StartZap(n: nat) | Look(n: nat)

  function Boot(pidMax: nat): System { System(PidNamespaces.Boot(pidMax), {}, {}, map[]) }

  /** A closed namespace takes in nobody; the namespaces below it are not closed by it. */
  predicate MayEnter(z: System, p: nat) {
    p in z.pids.pids && z.pids.pids[p].phase.Live? && z.pids.pids[p].ns !in z.scans
  }

  /** A pid with a task attached is not freed. */
  predicate Allowed(z: System, a: Action) {
    a.Remove? ==> a.p !in z.tasks
  }

  /** The process the scan of `n` finds at its next number, if any. */
  function Found(z: System, n: nat): set<nat> {
    if n in z.scans && n < |z.pids.idrs| && z.scans[n] in z.pids.idrs[n] && z.pids.idrs[n][z.scans[n]].published
    then z.tasks * {z.pids.idrs[n][z.scans[n]].owner}
    else {}
  }

  /** One atomic step of any process; a disabled step changes nothing. */
  function Do(z: System, step: Step): System {
    match step
    case Table(a) => if Allowed(z, a) then z.(pids := Apply(z.pids, a)) else z
    case Attach(p) => if MayEnter(z, p) then z.(tasks := z.tasks + {p}) else z
    case Exit(p) => z.(tasks := z.tasks - {p}, pending := z.pending - {p})
    case StartZap(n) => if n < |z.pids.tree| && n !in z.scans then z.(scans := z.scans[n := 2]) else z
    case Look(n) =>
      if n in z.scans && z.scans[n] < z.pids.pidMax
      then z.(pending := z.pending + Found(z, n), scans := z.scans[n := z.scans[n] + 1])
      else z
  }

  function DoAll(z: System, steps: seq<Step>): System
    decreases |steps|
  {
    if steps == [] then z else DoAll(Do(z, steps[0]), steps[1..])
  }

  // --- Who is behind the cursor ---

  /** The scan of `n` has passed the number of `p` in it. */
  predicate Passed(z: System, n: nat, p: nat) {
    && n in z.scans && n < |z.pids.tree| && p in z.pids.pids
    && z.pids.tree[n].level < |z.pids.pids[p].numbers|
    && var nr := z.pids.pids[p].numbers[z.pids.tree[n].level].nr;
       Holds(z.pids, p, n, nr) && 2 <= nr < z.scans[n]
  }

  function Behind(z: System, p: nat): set<nat> {
    set n | n in z.scans && Passed(z, n, p)
  }

  /** The scans that had already passed the number of `p` when it last entered. */
  function Missed(z: System, steps: seq<Step>, p: nat): set<nat>
    decreases |steps|
  {
    if steps == [] then {}
    else
      var front := steps[..|steps| - 1];
      var y := DoAll(z, front);
      if steps[|steps| - 1] == Attach(p) && p !in y.tasks then Behind(y, p) else Missed(z, front, p)
  }

  ghost predicate ZapInv(z: System) {
    && Inv(z.pids)
    && (forall p <- z.tasks :: p in z.pids.pids && z.pids.pids[p].phase.Live?)
    && (forall n <- z.scans :: n < |z.pids.tree| && z.scans[n] >= 2)
    && z.pending <= z.tasks
  }

  /** `p` is about to die exactly when some scan came across it after it entered; `missed` are those that did
      not, and the scan of its own namespace is none of them. */
  ghost predicate Exact(z: System, p: nat, missed: set<nat>) {
    && p in z.pids.pids
    && missed <= Behind(z, p) && z.pids.pids[p].ns !in missed
    && (p in z.pending <==> missed != Behind(z, p))
  }

  /** A pid with all its numbers keeps them until its own removal begins. */
  lemma {:induction false} LiveKept(s: State, a: Action, p: nat)
    requires Inv(s) && p in s.pids && s.pids[p].phase.Live? && a != Remove(p)
    ensures p in Apply(s, a).pids && Apply(s, a).pids[p] == s.pids[p]
    ensures |s.tree| <= |Apply(s, a).tree| && forall n: nat :: n < |s.tree| ==> Apply(s, a).tree[n] == s.tree[n]
  {
  }

  lemma {:induction false} TableInv(z: System, a: Action)
    requires ZapInv(z) && Allowed(z, a)
    ensures ZapInv(Do(z, Table(a)))
  {
    StepInv(z.pids, a);
    var t := Apply(z.pids, a);
    forall p | p in z.tasks
      ensures p in t.pids && t.pids[p].phase.Live?
    {
      LiveKept(z.pids, a, p);
    }
    assert |t.tree| >= |z.pids.tree|;
  }

  lemma {:induction false} DoInv(z: System, step: Step)
    requires ZapInv(z)
    ensures ZapInv(Do(z, step))
  {
    if step.Table? && Allowed(z, step.a) { TableInv(z, step.a); }
  }

  lemma {:induction false} DoLast(z: System, steps: seq<Step>, step: Step)
    ensures DoAll(z, steps + [step]) == Do(DoAll(z, steps), step)
    decreases |steps|
  {
    if steps == [] {
      assert [step][1..] == [];
    } else {
      assert (steps + [step])[1..] == steps[1..] + [step];
      DoLast(Do(z, steps[0]), steps[1..], step);
    }
  }

  lemma {:induction false} TableExact(z: System, a: Action, p: nat, missed: set<nat>)
    requires ZapInv(z) && p in z.tasks && Exact(z, p, missed) && Allowed(z, a)
    ensures Exact(Do(z, Table(a)), p, missed)
  {
    LiveKept(z.pids, a, p);
    var y := Do(z, Table(a));
    forall n | n in z.scans ensures Passed(y, n, p) <==> Passed(z, n, p) {
      assert y.pids.tree[n] == z.pids.tree[n];
    }
    assert Behind(y, p) == Behind(z, p);
  }

  lemma {:induction false} LookExact(z: System, n: nat, p: nat, missed: set<nat>)
    requires ZapInv(z) && p in z.tasks && Exact(z, p, missed) && n in z.scans && z.scans[n] < z.pids.pidMax
    ensures Exact(Do(z, Look(n)), p, missed)
  {
    var y, at := Do(z, Look(n)), z.scans[n];
    forall m | m in z.scans ensures Passed(y, m, p) <==> Passed(z, m, p) || (m == n && Holds(z.pids, p, n, at)) {}
    assert Behind(y, p) == Behind(z, p) + if Holds(z.pids, p, n, at) then {n} else {};
    if at in z.pids.idrs[n] { assert EntryOk(z.pids, n, at); }
    assert p in Found(z, n) <==> Holds(z.pids, p, n, at);
    if Holds(z.pids, p, n, at) {
      assert n !in Behind(z, p);
    }
  }

  lemma {:induction false} DoExact(z: System, step: Step, p: nat, missed: set<nat>)
    requires ZapInv(z) && p in z.tasks && p in Do(z, step).tasks && Exact(z, p, missed)
    ensures Exact(Do(z, step), p, missed)
  {
    var y := Do(z, step);
    match step
    case Table(a) => if Allowed(z, a) { TableExact(z, a, p, missed); }
    case Look(n) => if n in z.scans && z.scans[n] < z.pids.pidMax { LookExact(z, n, p, missed); }
    case _ => assert Behind(y, p) == Behind(z, p);
  }

  lemma {:induction false} EntryExact(z: System, p: nat)
    requires ZapInv(z) && p !in z.tasks && MayEnter(z, p)
    ensures Exact(Do(z, Attach(p)), p, Behind(z, p))
  {
    assert Behind(Do(z, Attach(p)), p) == Behind(z, p);
  }

  lemma {:induction false} RunExact(pidMax: nat, steps: seq<Step>)
    ensures var z := DoAll(Boot(pidMax), steps);
            ZapInv(z) && forall p <- z.tasks :: Exact(z, p, Missed(Boot(pidMax), steps, p))
    decreases |steps|
  {
    if steps != [] {
      var front, last := steps[..|steps| - 1], steps[|steps| - 1];
      RunExact(pidMax, front);
      DoLast(Boot(pidMax), front, last);
      assert steps == front + [last];
      var y := DoAll(Boot(pidMax), front);
      DoInv(y, last);
      forall p | p in Do(y, last).tasks ensures Exact(Do(y, last), p, Missed(Boot(pidMax), steps, p)) {
        if p in y.tasks {
          DoExact(y, last, p, Missed(Boot(pidMax), front, p));
        } else {
          EntryExact(y, p);
        }
      }
    }
  }

  // --- Main results ---

  /** However scans, allocations, frees, entries and exits interleave, a process has a fatal signal pending
      exactly when some scan passed its number after it entered. So it slips through exactly when every scan
      that is past its number was past it already at its entry; never the scan of its own namespace. */
  lemma {:induction false} ScanCatchesExactly(pidMax: nat, steps: seq<Step>)
    ensures var z := DoAll(Boot(pidMax), steps);
            && z.pending <= z.tasks
            && forall p <- z.tasks ::
                 && p in z.pids.pids
                 && Missed(Boot(pidMax), steps, p) <= Behind(z, p)
                 && z.pids.pids[p].ns !in Missed(Boot(pidMax), steps, p)
                 && (p in z.pending <==> Missed(Boot(pidMax), steps, p) != Behind(z, p))
  {
    RunExact(pidMax, steps);
  }

  /** No process ever enters below a namespace that is closed at the time. */
  predicate NestedBlocked(z: System, steps: seq<Step>)
    decreases |steps|
  {
    steps != [] ==>
      var front := steps[..|steps| - 1];
      var y := DoAll(z, front);
      && NestedBlocked(z, front)
      && (steps[|steps| - 1].Attach? && MayEnter(y, steps[|steps| - 1].p) ==>
            var ns := y.pids.pids[steps[|steps| - 1].p].ns;
            WellFormed(y.pids.tree) && ns < |y.pids.tree| && !Blocked(y.pids.tree, y.scans.Keys, ns))
  }

  lemma {:induction false} PassedIsAncestor(z: System, n: nat, p: nat)
    requires ZapInv(z) && n in z.scans && p in z.pids.pids && z.pids.pids[p].phase.Live?
    ensures z.pids.pids[p].ns < |z.pids.tree|
    ensures Passed(z, n, p) ==> InScan(z.pids, n, p) && Blocked(z.pids.tree, z.scans.Keys, z.pids.pids[p].ns)
    ensures InScan(z.pids, n, p) && z.scans[n] >= z.pids.pidMax ==> Passed(z, n, p)
  {
    InScanHolds(z.pids, n, p);
    BlockedByAncestor(z.pids.tree, z.scans.Keys, z.pids.pids[p].ns);
  }

  lemma {:induction false} NobodyMissed(pidMax: nat, steps: seq<Step>, p: nat)
    requires NestedBlocked(Boot(pidMax), steps) && p in DoAll(Boot(pidMax), steps).tasks
    ensures Missed(Boot(pidMax), steps, p) == {}
    decreases |steps|
  {
    if steps != [] {
      var front, last := steps[..|steps| - 1], steps[|steps| - 1];
      var y := DoAll(Boot(pidMax), front);
      RunExact(pidMax, front);
      DoLast(Boot(pidMax), front, last);
      assert steps == front + [last];
      if p in y.tasks {
        NobodyMissed(pidMax, front, p);
      } else {
        forall n | n in Behind(y, p) ensures false {
          PassedIsAncestor(y, n, p);
        }
      }
    }
  }

  /** Once the scan of a namespace is through, everybody left in it with a number from 2 up has a fatal signal
      pending; everybody left below it too, if entries below a closed namespace are blocked. Nobody outside a
      closed namespace has one. */
  lemma {:induction false} ScanMissesNobody(pidMax: nat, steps: seq<Step>)
    ensures var z := DoAll(Boot(pidMax), steps);
            && z.pending <= z.tasks
            && (forall n <- z.scans, p <- z.tasks :: z.scans[n] >= z.pids.pidMax && InScan(z.pids, n, p) ==>
                  (z.pids.pids[p].ns == n || NestedBlocked(Boot(pidMax), steps) ==> p in z.pending))
            && (forall p <- z.pending :: exists n <- z.scans :: InScan(z.pids, n, p))
  {
    RunExact(pidMax, steps);
    var z := DoAll(Boot(pidMax), steps);
    forall n <- z.scans, p <- z.tasks | z.scans[n] >= z.pids.pidMax && InScan(z.pids, n, p)
      ensures z.pids.pids[p].ns == n || NestedBlocked(Boot(pidMax), steps) ==> p in z.pending
    {
      PassedIsAncestor(z, n, p);
      assert n in Behind(z, p);
      if NestedBlocked(Boot(pidMax), steps) { NobodyMissed(pidMax, steps, p); }
    }
    forall p <- z.pending ensures exists n <- z.scans :: InScan(z.pids, n, p) {
      assert Exact(z, p, Missed(Boot(pidMax), steps, p));
      var n :| n in Behind(z, p);
      PassedIsAncestor(z, n, p);
    }
  }

  /** A live pid can always go: its process exits, and its numbers are removed level by level, scans or not. */
  lemma {:induction false} ExitThenFree(z: System, p: nat) returns (steps: seq<Step>)
    requires ZapInv(z) && p in z.pids.pids && z.pids.pids[p].phase.Live?
    ensures var y := DoAll(z, steps);
            && y.pids.pids == z.pids.pids - {p} && y.tasks == z.tasks - {p}
            && y.pending == z.pending - {p} && y.scans == z.scans
  {
    var removals := RemoveAll(Do(z, Exit(p)), p);
    steps := [Exit(p)] + removals;
  }

  lemma {:induction false} RemoveAll(z: System, p: nat) returns (steps: seq<Step>)
    requires Inv(z.pids) && p in z.pids.pids && !z.pids.pids[p].phase.Filling? && p !in z.tasks
    ensures DoAll(z, steps) == z.(pids := DoAll(z, steps).pids)
    ensures DoAll(z, steps).pids.pids == z.pids.pids - {p}
    decreases |z.pids.pids[p].numbers| - Removing(z.pids.pids[p])
  {
    assert PidOk(z.pids, z.pids.pids[p]);
    var y := Do(z, Table(Remove(p)));
    RemoveInv(z.pids, p);
    steps := [];
    if p in y.pids.pids {
      steps := RemoveAll(y, p);
    }
    steps := [Table(Remove(p))] + steps;
  }

  // --- What a full namespace means for the scan ---

  lemma {:induction false} DoConcat(z: System, a: seq<Step>, b: seq<Step>)
    ensures DoAll(z, a + b) == DoAll(DoAll(z, a), b)
    decreases |a|
  {
    if a == [] {
      assert a + b == b;
    } else {
      assert (a + b)[1..] == a[1..] + b;
      DoConcat(Do(z, a[0]), a[1..], b);
    }
  }

  /** Only the root namespace, and nobody being killed. */
  predicate Quiet(z: System) {
    z.pids.tree == [Ns(0, 0)] && |z.pids.idrs| == 1 && z.scans == map[]
  }

  /** `z` after a process `p` with number `nr` has entered the root. */
  function Entered(z: System, p: nat, nr: int): System
    requires Quiet(z)
  {
    var idr := z.pids.idrs[0];
    z.(pids := State(z.pids.tree, [if nr > 0 then idr[nr := Entry(p, true)] else idr],
                     z.pids.pids[p := Pid(0, [Upid(nr, 0)], Live)], z.pids.pidMax),
       tasks := z.tasks + {p})
  }

  lemma {:induction false} BeginInRoot(s: State, p: nat)
    requires s.tree == [Ns(0, 0)] && p !in s.pids
    ensures Apply(s, Begin(0, p)) == s.(pids := s.pids[p := Pid(0, [Upid(0, 0)], Filling(1))])
  {
    assert seq(1, _ => Upid(0, 0)) == [Upid(0, 0)];
  }

  lemma {:induction false} ReserveInRoot(s: State, p: nat, nr: int)
    requires s.tree == [Ns(0, 0)] && |s.idrs| == 1 && p in s.pids && s.pids[p] == Pid(0, [Upid(0, 0)], Filling(1))
    requires MayReturn(s.idrs[0], s.pidMax, nr)
    ensures Apply(s, Reserve(p, nr)) ==
              s.(idrs := [if nr > 0 then s.idrs[0][nr := Entry(p, false)] else s.idrs[0]],
                 pids := s.pids[p := Pid(0, [Upid(nr, 0)], Filling(0))])
  {
    assert CanReserve(s, p, nr);
    assert Ancestor(s.tree, 0, 0) == 0;
    assert [Upid(0, 0)][0 := Upid(nr, 0)] == [Upid(nr, 0)];
  }

  lemma {:induction false} PublishInRoot(s: State, p: nat, nr: int)
    requires s.tree == [Ns(0, 0)] && |s.idrs| == 1 && p in s.pids && s.pids[p] == Pid(0, [Upid(nr, 0)], Filling(0))
    ensures Apply(s, Publish(p)) ==
              s.(idrs := [if nr > 0 then s.idrs[0][nr := Entry(p, true)] else s.idrs[0]],
                 pids := s.pids[p := Pid(0, [Upid(nr, 0)], Live)])
  {
    assert Holds(s, p, 0, nr) <==> nr > 0;
    assert PublishIn(s, p, 0) == if nr > 0 then s.idrs[0][nr := Entry(p, true)] else s.idrs[0];
    assert Apply(s, Publish(p)).idrs == [PublishIn(s, p, 0)];
  }

  lemma {:induction false} Enter(z: System, p: nat, nr: int)
    requires Quiet(z) && p !in z.pids.pids && MayReturn(z.pids.idrs[0], z.pids.pidMax, nr)
    ensures DoAll(z, [Table(Begin(0, p)), Table(Reserve(p, nr)), Table(Publish(p)), Attach(p)]) == Entered(z, p, nr)
  {
    BeginInRoot(z.pids, p);
    var begun := Apply(z.pids, Begin(0, p));
    ReserveInRoot(begun, p, nr);
    var held := Apply(begun, Reserve(p, nr));
    PublishInRoot(held, p, nr);
    var end := Entered(z, p, nr);
    var idr := z.pids.idrs[0];
    assert idr[nr := Entry(p, false)][nr := Entry(p, true)] == idr[nr := Entry(p, true)];
    assert Apply(held, Publish(p)) == end.pids;
    assert DoAll(z.(pids := end.pids), [Attach(p)]) == end;
    assert DoAll(z.(pids := held), [Table(Publish(p)), Attach(p)]) == end;
    assert DoAll(z.(pids := begun), [Table(Reserve(p, nr)), Table(Publish(p)), Attach(p)]) == end;
  }

  lemma {:induction false} FillRoot(pidMax: nat, k: nat) returns (steps: seq<Step>)
    requires k == 0 || k < pidMax
    ensures var z := DoAll(Boot(pidMax), steps);
            && Quiet(z) && z.pids.pidMax == pidMax && 0 !in z.pids.pids
            && (forall p <- z.pids.pids :: p <= k)
            && (forall nr: int :: nr in z.pids.idrs[0] <==> 1 <= nr <= k)
  {
    steps := [];
    if k > 0 {
      var before := FillRoot(pidMax, k - 1);
      var enter := [Table(Begin(0, k)), Table(Reserve(k, k)), Table(Publish(k)), Attach(k)];
      Enter(DoAll(Boot(pidMax), before), k, k);
      DoConcat(Boot(pidMax), before, enter);
      steps := before + enter;
    }
  }

  /** Scanning to the end moves no process and no number, and finds nobody behind the cursor. */
  lemma {:induction false} ScanThrough(z: System, n: nat) returns (looks: seq<Step>)
    requires ZapInv(z) && n in z.scans
    ensures DoAll(z, looks).pids == z.pids && DoAll(z, looks).tasks == z.tasks
    ensures forall p <- DoAll(z, looks).pending ::
              p in z.pending || exists nr: int :: nr >= z.scans[n] && Holds(z.pids, p, n, nr)
    ensures n in DoAll(z, looks).scans && DoAll(z, looks).scans[n] >= z.pids.pidMax
    decreases z.pids.pidMax - z.scans[n]
  {
    looks := [];
    if z.scans[n] < z.pids.pidMax {
      if z.scans[n] in z.pids.idrs[n] { assert EntryOk(z.pids, n, z.scans[n]); }
      var rest := ScanThrough(Do(z, Look(n)), n);
      looks := [Look(n)] + rest;
    }
  }

  /** Whatever the largest number, a full namespace lets a process in with an error for a number, and the whole
      scan then passes it by. */
  lemma {:induction false} FullNamespaceEscapes(pidMax: nat) returns (steps: seq<Step>)
    requires pidMax > 0
    ensures var z := DoAll(Boot(pidMax), steps);
            && 0 in z.scans && z.scans[0] >= z.pids.pidMax
            && 0 in z.tasks && 0 !in z.pending
            && 0 in z.pids.pids && z.pids.pids[0].numbers == [Upid(-ENOSPC, 0)]
  {
    var fill := FillRoot(pidMax, pidMax - 1);
    var full := DoAll(Boot(pidMax), fill);
    var enter := [Table(Begin(0, 0)), Table(Reserve(0, -ENOSPC)), Table(Publish(0)), Attach(0)];
    Enter(full, 0, -ENOSPC);
    DoConcat(Boot(pidMax), fill, enter);
    var z := Entered(full, 0, -ENOSPC);
    var closed := Do(z, StartZap(0));
    assert DoAll(z, [StartZap(0)]) == closed;
    DoConcat(Boot(pidMax), fill + enter, [StartZap(0)]);
    RunExact(pidMax, fill + enter + [StartZap(0)]);
    var looks := ScanThrough(closed, 0);
    DoConcat(Boot(pidMax), fill + enter + [StartZap(0)], looks);
    steps := fill + enter + [StartZap(0)] + looks;
    ScanMissesNobody(pidMax, steps);
    assert forall n: nat :: !InScan(z.pids, n, 0);
  }

  // --- What nested namespaces mean for the scan ---

  /** The steps by which process 0 enters namespace 1, below the root, as number 2 there and 1 inside. */
  const ENTER_NESTED: seq<Step> :=
    [Table(Begin(1, 0)), Table(Reserve(0, 1)), Table(Reserve(0, 2)), Table(Publish(0)), Attach(0)]

  predicate Nested(s: State) {
    s.tree == [Ns(0, 0), Ns(1, 0)] && s.idrs == [map[], map[]] && s.pids == map[] && s.pidMax > 2
  }

  lemma {:induction false} AllocNested(s: State)
    requires Nested(s)
    ensures var y := Apply(Apply(Apply(Apply(s, Begin(1, 0)), Reserve(0, 1)), Reserve(0, 2)), Publish(0));
            && y.tree == s.tree && y.pidMax == s.pidMax
            && y.pids == map[0 := Pid(1, [Upid(2, 0), Upid(1, 1)], Live)]
  {
    var s1 := Apply(s, Begin(1, 0));
    assert seq(2, _ => Upid(0, 0)) == [Upid(0, 0), Upid(0, 0)];
    assert s1 == s.(pids := map[0 := Pid(1, [Upid(0, 0), Upid(0, 0)], Filling(2))]);
    assert NsOk(s.tree, 1) && Ancestor(s.tree, 1, 1) == 1 && Ancestor(s.tree, 1, 0) == 0;
    assert CanReserve(s1, 0, 1);
    var s2 := DoReserve(s1, 0, 1);
    assert [Upid(0, 0), Upid(0, 0)][1 := Upid(1, 1)] == [Upid(0, 0), Upid(1, 1)];
    assert s2.idrs == [map[], map[1 := Entry(0, false)]];
    assert s2.pids == map[0 := Pid(1, [Upid(0, 0), Upid(1, 1)], Filling(1))];
    assert CanReserve(s2, 0, 2);
    assert [Upid(0, 0), Upid(1, 1)][0 := Upid(2, 0)] == [Upid(2, 0), Upid(1, 1)];
  }

  lemma {:induction false} EnterNested(z: System)
    requires Nested(z.pids) && 1 !in z.scans
    ensures var y := DoAll(z, ENTER_NESTED);
            && y.tasks == z.tasks + {0} && y.pending == z.pending && y.scans == z.scans
            && y.pids.tree == z.pids.tree && y.pids.pidMax == z.pids.pidMax
            && y.pids.pids == map[0 := Pid(1, [Upid(2, 0), Upid(1, 1)], Live)]
  {
    AllocNested(z.pids);
    var z1 := Do(z, Table(Begin(1, 0)));
    var z2 := Do(z1, Table(Reserve(0, 1)));
    var z3 := Do(z2, Table(Reserve(0, 2)));
    var z4 := Do(z3, Table(Publish(0)));
    var z5 := Do(z4, Attach(0));
    assert DoAll(z4, [Attach(0)]) == z5;
    assert DoAll(z3, [Table(Publish(0)), Attach(0)]) == z5;
    assert DoAll(z2, [Table(Reserve(0, 2)), Table(Publish(0)), Attach(0)]) == z5;
    assert DoAll(z1, [Table(Reserve(0, 1)), Table(Reserve(0, 2)), Table(Publish(0)), Attach(0)]) == z5;
  }

  /** Closing the one namespace is not enough for those below it: a process that enters a nested namespace
      with a number the cursor has passed survives the whole scan. */
  lemma {:induction false} NestedProcessSlips(pidMax: nat) returns (steps: seq<Step>)
    requires pidMax > 2
    ensures var z := DoAll(Boot(pidMax), steps);
            && 0 in z.scans && z.scans[0] >= z.pids.pidMax
            && 0 in z.tasks && InScan(z.pids, 0, 0) && 0 !in z.pending
  {
    var open := [Table(Unshare(0)), StartZap(0), Look(0)];
    var z1 := Do(Boot(pidMax), Table(Unshare(0)));
    var z2 := Do(z1, StartZap(0));
    var z3 := Do(z2, Look(0));
    assert DoAll(z2, [Look(0)]) == z3;
    assert DoAll(z1, [StartZap(0), Look(0)]) == z3;
    assert DoAll(Boot(pidMax), open) == z3;
    EnterNested(z3);
    DoConcat(Boot(pidMax), open, ENTER_NESTED);
    RunExact(pidMax, open + ENTER_NESTED);
    var z := DoAll(z3, ENTER_NESTED);
    var looks := ScanThrough(z, 0);
    DoConcat(Boot(pidMax), open + ENTER_NESTED, looks);
    steps := open + ENTER_NESTED + looks;
    assert NsOk(z.pids.tree, 1) && IsAncestor(z.pids.tree, 0, 1);
  }
}
