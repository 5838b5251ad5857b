/** `alloc_pid`, `free_pid` and `zap_pid_ns_processes` as printed, over the tables of PidNamespaces. */
module PidTable {
  import opened PidNamespaces

  /** The first number from `lo` on that is not in the idr, or `hi` if there is none below it. */
  function FirstFree(idr: Idr, lo: int, hi: int): (r: int)
    ensures r < hi ==> lo <= r && r !in idr
    ensures r >= hi ==> forall k :: lo <= k < hi ==> k in idr
    ensures forall k :: lo <= k < r && k < hi ==> k in idr
    decreases hi - lo
  {
    if lo >= hi then hi else if lo !in idr then lo else FirstFree(idr, lo + 1, hi)
  }

  /** `idr_alloc_cyclic` with bounds [1, pidMax): search from the cursor, wrap once, fail when full. */
  function CyclicPick(idr: Idr, cursor: nat, pidMax: nat): (nr: int)
    ensures MayReturn(idr, pidMax, nr)
  {
    var ahead := FirstFree(idr, Max(cursor, 1), pidMax);
    if ahead < pidMax then ahead
    else
      var wrapped := FirstFree(idr, 1, pidMax);
      if wrapped < pidMax then wrapped else -ENOSPC
  }

  function Max(a: nat, b: nat): nat { if a < b then b else a }

  predicate LeastFree(idr: Idr, lo: int, hi: int, nr: int) {
    lo <= nr < hi && nr !in idr && forall k :: lo <= k < nr ==> k in idr
  }

  /** `nr` is the least free number at or past the cursor; if there is none, the least free number; if there is
      none at all, an error. */
  ghost predicate NextCyclic(idr: Idr, cursor: nat, pidMax: nat, nr: int) {
    if exists k: int :: 1 <= k && cursor <= k < pidMax && k !in idr
    then LeastFree(idr, if cursor == 0 then 1 else cursor, pidMax, nr)
    else if exists k: int :: 1 <= k < pidMax && k !in idr then LeastFree(idr, 1, pidMax, nr)
    else nr < 0
  }

  lemma CyclicPickIsNext(idr: Idr, cursor: nat, pidMax: nat)
    ensures NextCyclic(idr, cursor, pidMax, CyclicPick(idr, cursor, pidMax))
  {
  }

  /** A number that has just been freed behind the cursor does not come back while a free one lies ahead. */
  lemma FreedIsNotReused(idr: Idr, cursor: nat, pidMax: nat, freed: int, ahead: int, nr: int)
    requires 1 <= freed < cursor && freed in idr
    requires cursor <= ahead < pidMax && ahead !in idr
    requires NextCyclic(idr - {freed}, cursor, pidMax, nr)
    ensures cursor <= nr <= ahead && nr !in idr
  {
    assert ahead !in idr - {freed};
  }

  function ReservesDownTo(p: nat, numbers: seq<Upid>, k: nat): seq<Action>
    requires k <= |numbers|
    decreases |numbers| - k
  {
    if k == |numbers| then [] else ReservesDownTo(p, numbers, k + 1) + [Reserve(p, numbers[k].nr)]
  }

  /** The atomic steps of one allocation, deepest level first. */
  function AllocActions(ns: nat, p: nat, numbers: seq<Upid>): seq<Action> {
    [Begin(ns, p)] + ReservesDownTo(p, numbers, 0) + [Publish(p)]
  }

  function FreeActions(p: nat, levels: nat): seq<Action> {
    seq(levels, _ => Remove(p))
  }

  lemma {:induction false} ReservesAgree(p: nat, a: seq<Upid>, b: seq<Upid>, k: nat)
    requires k <= |a| == |b| && a[k..] == b[k..]
    ensures ReservesDownTo(p, a, k) == ReservesDownTo(p, b, k)
    decreases |a| - k
  {
    if k < |a| {
      assert a[k] == a[k..][0] && b[k] == b[k..][0];
      assert a[k + 1..] == a[k..][1..] && b[k + 1..] == b[k..][1..];
      ReservesAgree(p, a, b, k + 1);
    }
  }

  lemma {:induction false} ApplyLast(s: State, actions: seq<Action>, a: Action)
    ensures ApplyAll(s, actions + [a]) == Apply(ApplyAll(s, actions), a)
    decreases |actions|
  {
    if actions == [] {
      assert [a][1..] == [];
    } else {
      assert (actions + [a])[1..] == actions[1..] + [a];
      ApplyLast(Apply(s, actions[0]), actions[1..], a);
    }
  }

  /** The processes a scan of namespace `n` signals: those whose published number there is 2 or more. */
  ghost function ZapTargets(s: State, tasks: set<nat>, n: nat, upTo: int): set<nat>
    requires n < |s.idrs|
  {
    set nr | nr in s.idrs[n] && 2 <= nr < upTo && s.idrs[n][nr].published && s.idrs[n][nr].owner in tasks ::
      s.idrs[n][nr].owner
  }

  ghost predicate AllLive(s: State, tasks: set<nat>) {
    forall p <- tasks :: p in s.pids && s.pids[p].phase.Live?
  }

  /** An allocation begun in `start` with levels `k` and up reserved, each with its namespace's cyclic pick. */
  ghost predicate Allocating(start: State, startCursors: seq<nat>, s: State, cursors: seq<nat>,
                             ns: nat, p: nat, k: nat)
  {
    && WellFormed(s.tree) && s.tree == start.tree && s.pidMax == start.pidMax
    && |startCursors| == |cursors| == |s.tree| == |s.idrs| == |start.idrs| && ns < |s.tree|
    && p !in start.pids && p in s.pids && s.pids == start.pids[p := s.pids[p]]
    && s.pids[p].ns == ns && s.pids[p].phase == Filling(k) && k <= |s.pids[p].numbers| == s.tree[ns].level + 1
    && (forall n: nat {:trigger TakenAt(start, startCursors, s, cursors, ns, p, k, n)} :: n < |s.tree| ==>
          TakenAt(start, startCursors, s, cursors, ns, p, k, n))
    && Picked(s.pids[p].numbers, start, startCursors, ns, k)
  }

  /** Namespace `n` has given `p` its number and moved its cursor behind it if it is an ancestor at a level done
      already, and is untouched otherwise. */
  ghost predicate TakenAt(start: State, startCursors: seq<nat>, s: State, cursors: seq<nat>,
                          ns: nat, p: nat, k: nat, n: nat)
    requires WellFormed(s.tree) && |startCursors| == |cursors| == |s.tree| == |s.idrs| == |start.idrs|
    requires ns < |s.tree| && n < |s.tree| && p in s.pids && |s.pids[p].numbers| == s.tree[ns].level + 1
  {
    var l := s.tree[n].level;
    if k <= l <= s.tree[ns].level && Ancestor(s.tree, ns, l) == n && s.pids[p].numbers[l].nr > 0
    then
      var nr := s.pids[p].numbers[l].nr;
      s.idrs[n] == start.idrs[n][nr := Entry(p, false)] && cursors[n] == nr + 1
    else s.idrs[n] == start.idrs[n] && cursors[n] == startCursors[n]
  }

  ghost predicate Picked(numbers: seq<Upid>, start: State, cursors: seq<nat>, ns: nat, k: nat)
    requires WellFormed(start.tree) && |cursors| == |start.idrs| == |start.tree| && ns < |start.tree|
    requires |numbers| == start.tree[ns].level + 1
  {
    forall i: nat :: k <= i < |numbers| ==>
                       var a := Ancestor(start.tree, ns, i);
                       numbers[i] == Upid(CyclicPick(start.idrs[a], cursors[a], start.pidMax), a)
  }

  lemma {:induction false} PickedAdvances(numbers: seq<Upid>, start: State, cursors: seq<nat>,
                                          ns: nat, i: nat, upid: Upid)
    requires WellFormed(start.tree) && |cursors| == |start.idrs| == |start.tree| && ns < |start.tree|
    requires |numbers| == start.tree[ns].level + 1 && i < |numbers| && Picked(numbers, start, cursors, ns, i + 1)
    requires var a := Ancestor(start.tree, ns, i); upid == Upid(CyclicPick(start.idrs[a], cursors[a], start.pidMax), a)
    ensures Picked(numbers[i := upid], start, cursors, ns, i)
  {
  }

  lemma {:induction false} AllocAdvances(start: State, startCursors: seq<nat>, s: State, cursors: seq<nat>,
                                         newCursors: seq<nat>, ns: nat, p: nat, i: nat, nr: int)
    requires Allocating(start, startCursors, s, cursors, ns, p, i + 1) && CanReserve(s, p, nr)
    requires var a := Ancestor(s.tree, ns, i);
             && nr == CyclicPick(s.idrs[a], cursors[a], s.pidMax)
             && newCursors == cursors[a := if nr > 0 then nr + 1 else cursors[a]]
    ensures Allocating(start, startCursors, DoReserve(s, p, nr), newCursors, ns, p, i)
  {
    var a, t := Ancestor(s.tree, ns, i), DoReserve(s, p, nr);
    assert TakenAt(start, startCursors, s, cursors, ns, p, i + 1, a);
    forall n: nat | n < |s.tree| ensures TakenAt(start, startCursors, t, newCursors, ns, p, i, n) {
      assert TakenAt(start, startCursors, s, cursors, ns, p, i + 1, n);
    }
    PickedAdvances(s.pids[p].numbers, start, startCursors, ns, i, Upid(nr, a));
  }

  ghost predicate Traced(start: State, s: State, ns: nat, p: nat, k: nat)
    requires p in s.pids && k <= |s.pids[p].numbers|
  {
    s == ApplyAll(start, [Begin(ns, p)] + ReservesDownTo(p, s.pids[p].numbers, k))
  }

  lemma {:induction false} TraceBegins(start: State, s: State, ns: nat, p: nat)
    requires p in s.pids && s == Apply(start, Begin(ns, p))
    ensures Traced(start, s, ns, p, |s.pids[p].numbers|)
  {
    ApplyLast(start, [], Begin(ns, p));
    assert [] + [Begin(ns, p)] == [Begin(ns, p)] == [Begin(ns, p)] + [];
  }

  lemma {:induction false} TraceAdvances(start: State, s: State, ns: nat, p: nat, i: nat, nr: int)
    requires CanReserve(s, p, nr) && s.pids[p].phase.todo == i + 1 && Traced(start, s, ns, p, i + 1)
    ensures Traced(start, DoReserve(s, p, nr), ns, p, i)
  {
    var t := DoReserve(s, p, nr);
    var done := [Begin(ns, p)] + ReservesDownTo(p, s.pids[p].numbers, i + 1);
    ApplyLast(start, done, Reserve(p, nr));
    ReservesAgree(p, s.pids[p].numbers, t.pids[p].numbers, i + 1);
    assert done + [Reserve(p, nr)] == [Begin(ns, p)] + ReservesDownTo(p, t.pids[p].numbers, i);
  }

  /** What namespace `n` gives to a new pid of `ns` with these numbers: the number of its level, published, if
      it is an ancestor that could give one; the cursor moves behind it. */
  ghost predicate GivenAt(start: State, startCursors: seq<nat>, t: State, cursors: seq<nat>, ns: nat, p: nat, n: nat)
    requires WellFormed(start.tree) && n < |start.tree| == |start.idrs| == |t.idrs| == |cursors| == |startCursors|
    requires ns < |start.tree| && p in t.pids && |t.pids[p].numbers| == start.tree[ns].level + 1
  {
    var l := start.tree[n].level;
    if IsAncestor(start.tree, n, ns) && l <= start.tree[ns].level && t.pids[p].numbers[l].nr > 0
    then
      var nr := t.pids[p].numbers[l].nr;
      t.idrs[n] == start.idrs[n][nr := Entry(p, true)] && cursors[n] == nr + 1
    else t.idrs[n] == start.idrs[n] && cursors[n] == startCursors[n]
  }

  /** `p` is a new live pid of `ns`: in every ancestor it holds the next number from the cursor on, and nothing
      else has changed. */
  ghost predicate Allocated(start: State, startCursors: seq<nat>, t: State, cursors: seq<nat>, ns: nat, p: nat)
    requires WellFormed(start.tree) && |startCursors| == |start.idrs| == |start.tree| && ns < |start.tree|
  {
    && t.tree == start.tree && t.pidMax == start.pidMax && |t.idrs| == |cursors| == |start.tree|
    && p !in start.pids && p in t.pids && t.pids == start.pids[p := Pid(ns, t.pids[p].numbers, Live)]
    && |t.pids[p].numbers| == start.tree[ns].level + 1
    && (forall i: nat :: i <= start.tree[ns].level ==>
          var a := Ancestor(start.tree, ns, i);
          && t.pids[p].numbers[i].ns == a
          && NextCyclic(start.idrs[a], startCursors[a], start.pidMax, t.pids[p].numbers[i].nr))
    && (forall n: nat {:trigger GivenAt(start, startCursors, t, cursors, ns, p, n)} :: n < |start.tree| ==>
          GivenAt(start, startCursors, t, cursors, ns, p, n))
  }

  /** The call is an uninterrupted run of the atomic steps. */
  ghost predicate RanAlone(start: State, t: State, ns: nat, p: nat) {
    p in t.pids && t == ApplyAll(start, AllocActions(ns, p, t.pids[p].numbers))
  }

  lemma {:induction false} PublishedAt(start: State, startCursors: seq<nat>, s: State, cursors: seq<nat>,
                                       ns: nat, p: nat, n: nat)
    requires Allocating(start, startCursors, s, cursors, ns, p, 0) && Inv(s) && n < |s.tree|
    ensures GivenAt(start, startCursors, Apply(s, Publish(p)), cursors, ns, p, n)
  {
    var l := s.tree[n].level;
    assert TakenAt(start, startCursors, s, cursors, ns, p, 0, n);
    assert PidOk(s, s.pids[p]);
    AncestorIsUnique(s.tree, n, ns);
    assert Apply(s, Publish(p)).idrs[n] == PublishIn(s, p, n);
    if l <= s.tree[ns].level && Ancestor(s.tree, ns, l) == n && s.pids[p].numbers[l].nr > 0 {
      var nr := s.pids[p].numbers[l].nr;
      assert Holds(s, p, n, nr);
      assert start.idrs[n][nr := Entry(p, false)][nr := Entry(p, true)] == start.idrs[n][nr := Entry(p, true)];
    }
  }

  lemma {:induction false} AllocEnds(start: State, startCursors: seq<nat>, s: State, cursors: seq<nat>, ns: nat, p: nat)
    requires Allocating(start, startCursors, s, cursors, ns, p, 0) && Traced(start, s, ns, p, 0) && Inv(s)
    ensures var t := Apply(s, Publish(p));
            Inv(t) && Allocated(start, startCursors, t, cursors, ns, p) && RanAlone(start, t, ns, p)
  {
    PublishInv(s, p);
    ApplyLast(start, [Begin(ns, p)] + ReservesDownTo(p, s.pids[p].numbers, 0), Publish(p));
    forall n: nat | n < |s.tree| ensures GivenAt(start, startCursors, Apply(s, Publish(p)), cursors, ns, p, n) {
      PublishedAt(start, startCursors, s, cursors, ns, p, n);
    }
    forall i: nat | i <= start.tree[ns].level
      ensures var a := Ancestor(start.tree, ns, i);
              NextCyclic(start.idrs[a], startCursors[a], start.pidMax, s.pids[p].numbers[i].nr)
    {
      var a := Ancestor(start.tree, ns, i);
      CyclicPickIsNext(start.idrs[a], startCursors[a], start.pidMax);
    }
  }

  /** The release of `p` begun in `start`, with the levels below `i` removed. */
  ghost predicate FreedUpTo(start: State, s: State, p: nat, i: nat)
    requires p in start.pids
  {
    && s.tree == start.tree && s.pidMax == start.pidMax && i <= |start.pids[p].numbers|
    && if i == |start.pids[p].numbers| then s.pids == start.pids - {p}
       else s.pids == start.pids[p := start.pids[p].(phase := if i == 0 then Live else Freeing(i))]
  }

  ghost predicate FreeTraced(start: State, s: State, p: nat, i: nat)
    requires p in start.pids
  {
    Inv(s) && FreedUpTo(start, s, p, i) && s == ApplyAll(start, FreeActions(p, i))
  }

  lemma {:induction false} FreeSteps(start: State, s: State, p: nat, i: nat)
    requires s == ApplyAll(start, FreeActions(p, i)) && p in s.pids && !s.pids[p].phase.Filling?
    ensures DoRemove(s, p) == ApplyAll(start, FreeActions(p, i + 1))
  {
    ApplyLast(start, FreeActions(p, i), Remove(p));
    assert FreeActions(p, i + 1) == FreeActions(p, i) + [Remove(p)];
  }

  lemma {:induction false} FreeAdvances(start: State, s: State, p: nat, i: nat)
    requires Inv(start) && p in start.pids && i < |start.pids[p].numbers| && FreeTraced(start, s, p, i)
    ensures FreeTraced(start, DoRemove(s, p), p, i + 1)
  {
    RemoveInv(s, p);
    FreeSteps(start, s, p, i);
    assert PidOk(s, s.pids[p]);
  }

  lemma {:induction false} HoldsAfterFree(start: State, s: State, p: nat)
    requires p in start.pids && FreedUpTo(start, s, p, |start.pids[p].numbers|)
    ensures forall q: nat, n: nat, nr: int :: Holds(s, q, n, nr) <==> q != p && Holds(start, q, n, nr)
  {
  }

  class PidTable {
    const pidMax: nat
    var tree: seq<Ns>
    var idrs: seq<Idr>
    var cursors: seq<nat>
    var pids: map<nat, Pid>
    var nextPid: nat
    var tasks: set<nat>      // pids with a task attached
    var pending: set<nat>    // tasks with a fatal signal pending
    var closed: set<nat>     // namespaces marked PIDNS_ADDING_INIT

    ghost function View(): State
      reads this
    {
      State(tree, idrs, pids, pidMax)
    }

    ghost predicate Valid()
      reads this
    {
      && Inv(View()) && |cursors| == |tree|
      && (forall p <- pids :: p < nextPid)
      && AllLive(View(), tasks)
    }

    constructor (pidMax: nat)
      ensures Valid() && View() == Boot(pidMax)
    {
      this.pidMax := pidMax;
      tree, idrs, cursors, pids, nextPid := [Ns(0, 0)], [map[]], [0], map[], 0;
      tasks, pending, closed := {}, {}, {};
    }

    /** One pass of the allocation loop: walk up to the ancestor at level `i`, take a number there, record it. */
    method ReserveLevel(ns: nat, p: nat, i: nat, setTid: seq<int>) returns (nr: int)
      requires Inv(View()) && |cursors| == |tree| && ns < |tree| && i <= tree[ns].level
      requires p in pids && pids[p].ns == ns && pids[p].phase == Filling(i + 1)
      requires setTid == [] || |setTid| > tree[ns].level
      modifies this`idrs, this`cursors, this`pids
      ensures CanReserve(old(View()), p, nr) && View() == DoReserve(old(View()), p, nr)
      ensures var a := Ancestor(tree, ns, i);
              && nr == CyclicPick(old(idrs)[a], old(cursors)[a], pidMax)
              && NextCyclic(old(idrs)[a], old(cursors)[a], pidMax, nr)
              && idrs == (if nr > 0 then old(idrs)[a := old(idrs)[a][nr := Entry(p, false)]] else old(idrs))
              && pids == old(pids)[p := Pid(ns, old(pids)[p].numbers[i := Upid(nr, a)], Filling(i))]
              && cursors == old(cursors)[a := if nr > 0 then nr + 1 else old(cursors)[a]]
    {
      assert PidOk(View(), pids[p]);
      var tmp: nat := ns;
      while tree[tmp].level > i
        invariant tmp < |tree| && tree[tmp].level >= i
        invariant Ancestor(tree, ns, i) == Ancestor(tree, tmp, i)
        decreases tmp
      {
        assert NsOk(tree, tmp);
        tmp := tree[tmp].parent;
      }
      if setTid != [] {
        nr := setTid[i];
      }
      CyclicPickIsNext(idrs[tmp], cursors[tmp], pidMax);
      nr := CyclicPick(idrs[tmp], cursors[tmp], pidMax);
      if nr > 0 {
        idrs := idrs[tmp := idrs[tmp][nr := Entry(p, false)]];
        cursors := cursors[tmp := nr + 1];
      }
      pids := pids[p := pids[p].(numbers := pids[p].numbers[i := Upid(nr, tmp)], phase := Filling(i))];
    }

    /** `create_pid_namespace`: one level deeper, with an empty idr. */
    method CreatePidNamespace(parent: nat) returns (ns: nat)
      requires Valid() && parent < |tree|
      modifies this`tree, this`idrs, this`cursors
      ensures Valid() && ns == |old(tree)| && View() == Apply(old(View()), Unshare(parent))
      ensures tree == old(tree) + [Ns(old(tree)[parent].level + 1, parent)]
      ensures idrs == old(idrs) + [map[]] && cursors == old(cursors) + [0]
    {
      UnshareInv(View(), parent);
      ns := |tree|;
      tree := tree + [Ns(tree[parent].level + 1, parent)];
      idrs := idrs + [map[]];
      cursors := cursors + [0];
    }

    /** A process enters with its pid, unless its namespace has been closed to new ones. */
    method Attach(p: nat) returns (ok: bool)
      requires Valid() && p in pids && pids[p].phase.Live? && p !in tasks
      modifies this`tasks
      ensures Valid() && ok == (pids[p].ns !in closed)
      ensures tasks == if ok then old(tasks) + {p} else old(tasks)
    {
      ok := pids[p].ns !in closed;
      if ok {
        tasks := tasks + {p};
      }
    }

    /** The process is gone; its pid can be freed now. */
    method Exit(p: nat)
      requires Valid() && p in tasks
      modifies this`tasks, this`pending
      ensures Valid() && tasks == old(tasks) - {p} && pending == old(pending) - {p}
    {
      tasks := tasks - {p};
      pending := pending - {p};
    }

    /** The whole effect is one uninterrupted run of the atomic steps; each level gets the cyclic pick of its
        namespace, so the numbers requested in `setTid` never reach the result. */
    method AllocPid(ns: nat, setTid: seq<int>) returns (p: nat)
      requires Valid() && ns < |tree|
      requires setTid == [] || |setTid| > tree[ns].level
      modifies this`idrs, this`cursors, this`pids, this`nextPid
      ensures Valid()
      ensures Allocated(old(View()), old(cursors), View(), cursors, ns, p)
      ensures RanAlone(old(View()), View(), ns, p)
    {
      ghost var start, startCursors := View(), cursors;
      p := NewPid(ns);
      ReserveLevels(ns, p, setTid, start, startCursors);
      FinishAlloc(ns, p, start, startCursors);
    }

    /** `kmem_cache_alloc` and the pid's level, with room for one number per level. */
    method NewPid(ns: nat) returns (p: nat)
      requires Valid() && ns < |tree|
      modifies this`pids, this`nextPid
      ensures p == old(nextPid) && nextPid == p + 1
      ensures Allocating(old(View()), cursors, View(), cursors, ns, p, tree[ns].level + 1)
      ensures Inv(View()) && Traced(old(View()), View(), ns, p, tree[ns].level + 1)
    {
      p := nextPid;
      nextPid := nextPid + 1;
      var levels := tree[ns].level + 1;
      pids := pids[p := Pid(ns, seq(levels, _ => Upid(0, 0)), Filling(levels))];
      assert View() == Apply(old(View()), Begin(ns, p));
      BeginInv(old(View()), ns, p);
      TraceBegins(old(View()), View(), ns, p);
    }

    /** The allocation loop, from the deepest level down to the host. */
    method ReserveLevels(ns: nat, p: nat, setTid: seq<int>, ghost start: State, ghost startCursors: seq<nat>)
      requires ns < |tree| && (setTid == [] || |setTid| > tree[ns].level)
      requires Allocating(start, startCursors, View(), cursors, ns, p, tree[ns].level + 1)
      requires Inv(View()) && Traced(start, View(), ns, p, tree[ns].level + 1)
      modifies this`idrs, this`cursors, this`pids
      ensures Allocating(start, startCursors, View(), cursors, ns, p, 0)
      ensures Inv(View()) && Traced(start, View(), ns, p, 0)
    {
      var i := tree[ns].level;
      while i >= 0
        invariant -1 <= i <= tree[ns].level
        invariant Allocating(start, startCursors, View(), cursors, ns, p, i + 1)
        invariant Inv(View()) && Traced(start, View(), ns, p, i + 1)
      {
        ghost var before, beforeCursors := View(), cursors;
        var nr := ReserveLevel(ns, p, i, setTid);
        AllocAdvances(start, startCursors, before, beforeCursors, cursors, ns, p, i, nr);
        ReserveInv(before, p, nr);
        TraceAdvances(start, before, ns, p, i, nr);
        i := i - 1;
      }
    }

    method FinishAlloc(ns: nat, p: nat, ghost start: State, ghost startCursors: seq<nat>)
      requires Allocating(start, startCursors, View(), cursors, ns, p, 0)
      requires Inv(View()) && Traced(start, View(), ns, p, 0)
      modifies this`idrs, this`pids
      ensures Inv(View()) && Allocated(start, startCursors, View(), cursors, ns, p)
      ensures RanAlone(start, View(), ns, p)
    {
      AllocEnds(start, startCursors, View(), cursors, ns, p);
      Install(p);
    }

    /** The part of `alloc_pid` the listing elides: the numbers become visible to lookups. */
    method Install(p: nat)
      requires p in pids && pids[p].phase == Filling(0) && |idrs| == |tree|
      modifies this`idrs, this`pids
      ensures View() == Apply(old(View()), Publish(p))
    {
      ghost var before := View();
      var published := idrs;
      for n := 0 to |idrs|
        invariant |published| == |idrs|
        invariant forall m :: 0 <= m < n ==> published[m] == PublishIn(before, p, m)
      {
        var l := tree[n].level;
        if l < |pids[p].numbers| && pids[p].numbers[l].ns == n && pids[p].numbers[l].nr > 0 {
          published := published[n := idrs[n][pids[p].numbers[l].nr := Entry(p, true)]];
        } else {
          published := published[n := idrs[n]];
        }
      }
      idrs := published;
      pids := pids[p := pids[p].(phase := Live)];
      assert idrs == Apply(before, Publish(p)).idrs;
    }

    /** Removes the pid's number from every level, outermost first; nobody else's number moves. */
    method FreePid(p: nat)
      requires Valid() && p in pids && pids[p].phase.Live? && p !in tasks
      modifies this`idrs, this`pids
      ensures Valid() && pids == old(pids) - {p}
      ensures View() == ApplyAll(old(View()), FreeActions(p, |old(pids)[p].numbers|))
      ensures forall q: nat, n: nat, nr: int :: Holds(View(), q, n, nr) <==> q != p && Holds(old(View()), q, n, nr)
    {
      ghost var start := View();
      assert PidOk(start, pids[p]);
      var levels := |pids[p].numbers|;
      var i := 0;
      while i < levels
        invariant 0 <= i <= levels
        invariant FreeTraced(start, View(), p, i)
      {
        ghost var before := View();
        RemoveLevel(p, i);
        FreeAdvances(start, before, p, i);
        i := i + 1;
      }
      HoldsAfterFree(start, View(), p);
    }

    /** `idr_remove(&ns->idr, pid->numbers[i].nr)`, and the release of the pid behind its last level. */
    method RemoveLevel(p: nat, i: nat)
      requires Inv(View()) && p in pids && i < |pids[p].numbers| && pids[p].phase == if i == 0 then Live else Freeing(i)
      modifies this`idrs, this`pids
      ensures View() == DoRemove(old(View()), p)
    {
      assert PidOk(View(), pids[p]);
      var upid := pids[p].numbers[i];
      idrs := idrs[upid.ns := idrs[upid.ns] - {upid.nr}];
      if i + 1 < |pids[p].numbers| {
        pids := pids[p := pids[p].(phase := Freeing(i + 1))];
      } else {
        pids := pids - {p};
      }
    }

    /** Closes the namespace and leaves SIGKILL pending on exactly the processes of it and of the namespaces
        below it whose number in it is 2 or more; nobody outside is touched. */
    method ZapPidNsProcesses(n: nat)
      requires Valid() && n < |tree|
      modifies this`pending, this`closed
      ensures Valid() && closed == old(closed) + {n}
      ensures pending == old(pending) + set p | p in tasks && InScan(View(), n, p)
    {
      closed := closed + {n};
      var nr := 2;
      while nr < pidMax
        invariant 2 <= nr && (nr <= pidMax || nr == 2) && closed == old(closed) + {n}
        invariant pending == old(pending) + ZapTargets(View(), tasks, n, nr)
      {
        if nr in idrs[n] && idrs[n][nr].published {
          var task := idrs[n][nr].owner;
          if task in tasks && task !in pending {
            pending := pending + {task};
          }
        }
        nr := nr + 1;
      }
      assert ZapTargets(View(), tasks, n, nr) == ZapTargets(View(), tasks, n, pidMax);
      TargetsAreInScan(View(), tasks, n);
    }
  }

  /** A whole scan comes across exactly the processes it should. */
  lemma {:induction false} TargetsAreInScan(s: State, tasks: set<nat>, n: nat)
    requires Inv(s) && n < |s.tree| && AllLive(s, tasks)
    ensures ZapTargets(s, tasks, n, s.pidMax) == set p | p in tasks && InScan(s, n, p)
  {
    forall p ensures p in ZapTargets(s, tasks, n, s.pidMax) <==> p in tasks && InScan(s, n, p) {
      if p in tasks { ZapHits(s, tasks, n, p); }
    }
  }

  /** The same for every reachable state: the scan signals nobody outside the namespace and those below it, and
      inside it only the holder of number 1 and a process without a number there escape. */
  lemma {:induction false} ZapHitsExactlyTheSubtree(pidMax: nat, actions: seq<Action>, tasks: set<nat>, n: nat)
    requires var s := ApplyAll(Boot(pidMax), actions); n < |s.tree| && AllLive(s, tasks)
    ensures var s := ApplyAll(Boot(pidMax), actions);
            && Inv(s) && ZapTargets(s, tasks, n, s.pidMax) <= tasks
            && forall p <- tasks ::
                 && s.pids[p].ns < |s.tree|
                 && (p in ZapTargets(s, tasks, n, s.pidMax) <==>
                       && IsAncestor(s.tree, n, s.pids[p].ns)
                       && s.tree[n].level < |s.pids[p].numbers|
                       && s.pids[p].numbers[s.tree[n].level].nr >= 2)
  {
    RunInv(Boot(pidMax), actions);
    var s := ApplyAll(Boot(pidMax), actions);
    TargetsAreInScan(s, tasks, n);
    forall p | p in tasks ensures s.pids[p].ns < |s.tree| {
      InScanHolds(s, n, p);
    }
  }

  lemma {:induction false} ZapHits(s: State, tasks: set<nat>, n: nat, p: nat)
    requires Inv(s) && n < |s.tree| && AllLive(s, tasks) && p in tasks
    ensures p in ZapTargets(s, tasks, n, s.pidMax) <==> InScan(s, n, p)
  {
    InScanHolds(s, n, p);
    if p in ZapTargets(s, tasks, n, s.pidMax) {
      var nr :| nr in s.idrs[n] && 2 <= nr < s.pidMax && s.idrs[n][nr].owner == p;
      assert EntryOk(s, n, nr);
    }
    if InScan(s, n, p) {
      var nr: int :| nr >= 2 && Holds(s, p, n, nr);
      assert EntryOk(s, n, nr);
    }
  }
}
