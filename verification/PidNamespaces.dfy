/** PID numbers over a tree of namespaces: one number per ancestor level, reserved and removed one locked
    level at a time. */
module PidNamespaces {
  /** A namespace of the tree; the parent of the root is meaningless. */
  datatype Ns = Ns(level: nat, parent: nat)

  /** `owner` is the pid that reserved the number; lookups see it only once it is published. */
  datatype Entry = Entry(owner: nat, published: bool)
  type Idr = map<int, Entry>

  datatype Upid = Upid(nr: int, ns: nat)

  /** Filling(k): levels k-1 down to 0 are still to be reserved. Freeing(k): levels below k are removed. */
  datatype Phase = Filling(todo: nat) | Live | Freeing(done: nat)
  datatype Pid = Pid(ns: nat, numbers: seq<Upid>, phase: Phase)

  datatype State = State(tree: seq<Ns>, idrs: seq<Idr>, pids: map<nat, Pid>, pidMax: nat)

  datatype Action =
    | Unshare(parent: nat)
    | Begin(ns: nat, p: nat)
    | Reserve(p: nat, nr: int)
    | Publish(p: nat)
    | Remove(p: nat)

  const ENOSPC: int := 28

  // --- The tree ---

  predicate NsOk(tree: seq<Ns>, n: nat) {
    n < |tree| && tree[n].parent < n && tree[n].level == tree[tree[n].parent].level + 1
  }

  /** Every namespace but the first was created under an earlier one. */
  predicate WellFormed(tree: seq<Ns>) {
    0 < |tree| && tree[0].level == 0 && forall n: nat :: 0 < n < |tree| ==> NsOk(tree, n)
  }

  function Ancestor(tree: seq<Ns>, ns: nat, level: nat): (a: nat)
    requires WellFormed(tree) && ns < |tree| && level <= tree[ns].level
    ensures a <= ns && tree[a].level == level
    decreases ns
  {
    if tree[ns].level == level then ns else assert NsOk(tree, ns); Ancestor(tree, tree[ns].parent, level)
  }

  predicate IsAncestor(tree: seq<Ns>, a: nat, ns: nat)
    requires WellFormed(tree) && ns < |tree|
    decreases ns
  {
    a == ns || (ns > 0 && (assert NsOk(tree, ns); IsAncestor(tree, a, tree[ns].parent)))
  }

  /** `Ancestor` finds the one namespace at that level among the ancestors. */
  lemma {:induction false} AncestorIsUnique(tree: seq<Ns>, a: nat, ns: nat)
    requires WellFormed(tree) && ns < |tree| && a < |tree|
    ensures IsAncestor(tree, a, ns) <==> tree[a].level <= tree[ns].level && a == Ancestor(tree, ns, tree[a].level)
    decreases ns
  {
    if a != ns && ns > 0 { assert NsOk(tree, ns); AncestorIsUnique(tree, a, tree[ns].parent); }
  }

  /** The ancestors are the parent, its parent, and so on up. */
  lemma {:induction false} AncestorsAreParents(tree: seq<Ns>, ns: nat, k: nat, level: nat)
    requires WellFormed(tree) && ns < |tree| && level <= k <= tree[ns].level
    ensures Ancestor(tree, ns, tree[ns].level) == ns
    ensures tree[ns].level > 0 ==> Ancestor(tree, ns, tree[ns].level - 1) == tree[ns].parent
    ensures Ancestor(tree, Ancestor(tree, ns, k), level) == Ancestor(tree, ns, level)
    decreases ns
  {
    if tree[ns].level > 0 {
      assert NsOk(tree, ns);
      if k < tree[ns].level { AncestorsAreParents(tree, tree[ns].parent, k, level); }
    }
  }

  /** The namespace is closed itself or lies below a closed one. */
  predicate Blocked(tree: seq<Ns>, closed: set<nat>, ns: nat)
    requires WellFormed(tree) && ns < |tree|
    decreases ns
  {
    ns in closed || (ns > 0 && (assert NsOk(tree, ns); Blocked(tree, closed, tree[ns].parent)))
  }

  lemma {:induction false} BlockedByAncestor(tree: seq<Ns>, closed: set<nat>, ns: nat)
    requires WellFormed(tree) && ns < |tree|
    ensures Blocked(tree, closed, ns) <==> exists a <- closed :: IsAncestor(tree, a, ns)
    decreases ns
  {
    if ns > 0 { assert NsOk(tree, ns); BlockedByAncestor(tree, closed, tree[ns].parent); }
  }

  lemma {:induction false} TreeGrows(tree: seq<Ns>, parent: nat)
    requires WellFormed(tree) && parent < |tree|
    ensures WellFormed(tree + [Ns(tree[parent].level + 1, parent)])
  {
    var grown := tree + [Ns(tree[parent].level + 1, parent)];
    forall n: nat | 0 < n < |grown| ensures NsOk(grown, n) {
      assert n < |tree| ==> NsOk(tree, n);
    }
  }

  lemma {:induction false} AncestorKept(tree: seq<Ns>, x: Ns, ns: nat, level: nat)
    requires WellFormed(tree) && WellFormed(tree + [x]) && ns < |tree| && level <= tree[ns].level
    ensures Ancestor(tree + [x], ns, level) == Ancestor(tree, ns, level)
    decreases ns
  {
    if tree[ns].level != level {
      assert NsOk(tree, ns) && NsOk(tree + [x], ns);
      AncestorKept(tree, x, tree[ns].parent, level);
    }
  }

  // --- Atomic steps ---

  predicate Full(idr: Idr, pidMax: nat) {
    forall nr :: 1 <= nr < pidMax ==> nr in idr
  }

  /** What `idr_alloc_cyclic(&idr, NULL, 1, pid_max)` may return: any free number, or an error when full. */
  predicate MayReturn(idr: Idr, pidMax: nat, nr: int) {
    (1 <= nr < pidMax && nr !in idr) || (nr < 0 && Full(idr, pidMax))
  }

  /** The level at which `p` stands in namespace `n`, if its number there is in the idr. */
  predicate HoldsAt(p: Pid, level: nat) {
    && level < |p.numbers|
    && match p.phase
       case Filling(todo) => todo <= level
       case Live => true
       case Freeing(done) => done <= level
  }

  predicate Holds(s: State, p: nat, n: nat, nr: int) {
    && n < |s.tree| && p in s.pids && HoldsAt(s.pids[p], s.tree[n].level)
    && s.pids[p].numbers[s.tree[n].level] == Upid(nr, n) && nr > 0
  }

  /** `p` belongs to namespace `n` or one below it, and a scan of `n` from 2 up comes across its number there. */
  predicate InScan(s: State, n: nat, p: nat) {
    && WellFormed(s.tree) && n < |s.tree| && p in s.pids && s.pids[p].ns < |s.tree|
    && IsAncestor(s.tree, n, s.pids[p].ns)
    && s.tree[n].level < |s.pids[p].numbers| && s.pids[p].numbers[s.tree[n].level].nr >= 2
  }

  predicate CanReserve(s: State, p: nat, nr: int) {
    && WellFormed(s.tree) && |s.idrs| == |s.tree|
    && p in s.pids && s.pids[p].phase.Filling? && s.pids[p].phase.todo > 0
    && s.pids[p].ns < |s.tree| && |s.pids[p].numbers| == s.tree[s.pids[p].ns].level + 1
    && s.pids[p].phase.todo <= |s.pids[p].numbers|
    && MayReturn(s.idrs[Ancestor(s.tree, s.pids[p].ns, s.pids[p].phase.todo - 1)], s.pidMax, nr)
  }

  /** One level of the allocation loop: the idr call under the lock, and the record of its result. */
  function DoReserve(s: State, p: nat, nr: int): State
    requires CanReserve(s, p, nr)
  {
    var i := s.pids[p].phase.todo - 1;
    var n := Ancestor(s.tree, s.pids[p].ns, i);
    s.(idrs := if nr > 0 then s.idrs[n := s.idrs[n][nr := Entry(p, false)]] else s.idrs,
       pids := s.pids[p := s.pids[p].(numbers := s.pids[p].numbers[i := Upid(nr, n)], phase := Filling(i))])
  }

  function PublishIn(s: State, p: nat, n: nat): Idr
    requires n < |s.idrs| == |s.tree| && p in s.pids
  {
    var l := s.tree[n].level;
    if l < |s.pids[p].numbers| && Holds(s, p, n, s.pids[p].numbers[l].nr)
    then s.idrs[n][s.pids[p].numbers[l].nr := Entry(p, true)]
    else s.idrs[n]
  }

  function DoRemove(s: State, p: nat): State
    requires p in s.pids && !s.pids[p].phase.Filling?
  {
    var i := if s.pids[p].phase.Live? then 0 else s.pids[p].phase.done;
    if i >= |s.pids[p].numbers| || s.pids[p].numbers[i].ns >= |s.idrs| then s else
    var upid := s.pids[p].numbers[i];
    s.(idrs := s.idrs[upid.ns := s.idrs[upid.ns] - {upid.nr}],
       pids := if i + 1 < |s.pids[p].numbers| then s.pids[p := s.pids[p].(phase := Freeing(i + 1))] else s.pids - {p})
  }

  /** One atomic step of any process; a disabled step changes nothing. */
  function Apply(s: State, a: Action): State {
    match a
    case Unshare(parent) =>
      if parent < |s.tree| then s.(tree := s.tree + [Ns(s.tree[parent].level + 1, parent)], idrs := s.idrs + [map[]])
      else s
    case Begin(ns, p) =>
      if ns < |s.tree| && p !in s.pids
      then
        var levels := s.tree[ns].level + 1;
        s.(pids := s.pids[p := Pid(ns, seq(levels, _ => Upid(0, 0)), Filling(levels))])
      else s
    case Reserve(p, nr) => if CanReserve(s, p, nr) then DoReserve(s, p, nr) else s
    case Publish(p) =>
      if p in s.pids && s.pids[p].phase == Filling(0) && |s.idrs| == |s.tree|
      then s.(idrs := seq(|s.idrs|, n requires 0 <= n < |s.idrs| == |s.tree| && p in s.pids => PublishIn(s, p, n)),
              pids := s.pids[p := s.pids[p].(phase := Live)])
      else s
    case Remove(p) => if p in s.pids && !s.pids[p].phase.Filling? then DoRemove(s, p) else s
  }

  function ApplyAll(s: State, actions: seq<Action>): State
    decreases |actions|
  {
    if actions == [] then s else ApplyAll(Apply(s, actions[0]), actions[1..])
  }

  /** Only the root namespace, and no pids. */
  function Boot(pidMax: nat): State {
    State([Ns(0, 0)], [map[]], map[], pidMax)
  }

  // --- The invariant ---

  ghost predicate PidOk(s: State, p: Pid)
    requires WellFormed(s.tree)
  {
    && p.ns < |s.tree| && |p.numbers| == s.tree[p.ns].level + 1
    && (p.phase.Filling? ==> p.phase.todo <= |p.numbers|)
    && (p.phase.Freeing? ==> 0 < p.phase.done < |p.numbers|)
    && forall i :: 0 <= i < |p.numbers| && (p.phase.Filling? ==> p.phase.todo <= i) ==>
                     p.numbers[i].ns == Ancestor(s.tree, p.ns, i) && p.numbers[i].nr != 0 && p.numbers[i].nr < s.pidMax
  }

  ghost predicate EntryOk(s: State, n: nat, nr: int)
    requires n < |s.idrs| && nr in s.idrs[n]
  {
    && Holds(s, s.idrs[n][nr].owner, n, nr)
    && (s.idrs[n][nr].published <==> !s.pids[s.idrs[n][nr].owner].phase.Filling?)
  }

  ghost predicate Inv(s: State) {
    && WellFormed(s.tree) && |s.idrs| == |s.tree|
    && (forall p: nat {:trigger PidOk(s, s.pids[p])} :: p in s.pids ==> PidOk(s, s.pids[p]))
    && (forall n: nat, nr: int {:trigger EntryOk(s, n, nr)} :: n < |s.idrs| && nr in s.idrs[n] ==> EntryOk(s, n, nr))
    && (forall p: nat, n: nat, nr: int :: Holds(s, p, n, nr) ==> nr in s.idrs[n] && s.idrs[n][nr].owner == p)
  }

  lemma {:induction false} UnshareInv(s: State, parent: nat)
    requires Inv(s) && parent < |s.tree|
    ensures Inv(Apply(s, Unshare(parent)))
  {
    var t := Apply(s, Unshare(parent));
    TreeGrows(s.tree, parent);
    forall p: nat | p in t.pids ensures PidOk(t, t.pids[p]) {
      assert PidOk(s, s.pids[p]);
      var q := t.pids[p];
      forall i | 0 <= i < |q.numbers| && (q.phase.Filling? ==> q.phase.todo <= i)
        ensures q.numbers[i].ns == Ancestor(t.tree, q.ns, i)
      {
        AncestorKept(s.tree, Ns(s.tree[parent].level + 1, parent), q.ns, i);
      }
    }
    forall p: nat, n: nat, nr: int | Holds(t, p, n, nr) ensures n < |s.tree| {
      assert PidOk(s, s.pids[p]);
      assert PidOk(t, t.pids[p]);
      AncestorKept(s.tree, Ns(s.tree[parent].level + 1, parent), t.pids[p].ns, t.tree[n].level);
    }
    forall p: nat, n: nat, nr: int | Holds(t, p, n, nr) ensures nr in t.idrs[n] && t.idrs[n][nr].owner == p {
      assert Holds(s, p, n, nr);
    }
    forall n: nat, nr: int | n < |t.idrs| && nr in t.idrs[n] ensures EntryOk(t, n, nr) {
      assert EntryOk(s, n, nr);
    }
  }

  lemma {:induction false} BeginInv(s: State, ns: nat, p: nat)
    requires Inv(s)
    ensures Inv(Apply(s, Begin(ns, p)))
  {
    var t := Apply(s, Begin(ns, p));
    if t != s {
      forall q: nat, n: nat, nr: int | Holds(t, q, n, nr) ensures nr in t.idrs[n] && t.idrs[n][nr].owner == q {
        assert Holds(s, q, n, nr);
      }
      forall n: nat, nr: int | n < |t.idrs| && nr in t.idrs[n] ensures EntryOk(t, n, nr) {
        assert EntryOk(s, n, nr);
      }
      forall q | q in t.pids ensures PidOk(t, t.pids[q]) {
        assert q != p ==> PidOk(s, s.pids[q]);
      }
    }
  }

  lemma {:induction false} ReserveKeepsHeld(s: State, p: nat, nr: int, q: nat, n: nat, k: int)
    requires Inv(s) && CanReserve(s, p, nr) && Holds(DoReserve(s, p, nr), q, n, k)
    ensures k in DoReserve(s, p, nr).idrs[n] && DoReserve(s, p, nr).idrs[n][k].owner == q
  {
    var a := Ancestor(s.tree, s.pids[p].ns, s.pids[p].phase.todo - 1);
    assert PidOk(s, s.pids[p]);
    if !(q == p && n == a) { assert Holds(s, q, n, k); }
  }

  lemma {:induction false} ReserveKeepsEntries(s: State, p: nat, nr: int, n: nat, k: int)
    requires Inv(s) && CanReserve(s, p, nr) && n < |s.idrs| && k in DoReserve(s, p, nr).idrs[n]
    ensures EntryOk(DoReserve(s, p, nr), n, k)
  {
    var i := s.pids[p].phase.todo - 1;
    assert PidOk(s, s.pids[p]);
    if k in s.idrs[n] {
      assert EntryOk(s, n, k);
      assert s.idrs[n][k].owner == p ==> s.tree[n].level != i;
    } else {
      assert Holds(DoReserve(s, p, nr), p, n, k);
    }
  }

  lemma {:induction false} ReserveInv(s: State, p: nat, nr: int)
    requires Inv(s) && CanReserve(s, p, nr)
    ensures Inv(DoReserve(s, p, nr))
  {
    var t := DoReserve(s, p, nr);
    assert PidOk(s, s.pids[p]);
    forall q: nat | q in t.pids ensures PidOk(t, t.pids[q]) {
      assert PidOk(s, s.pids[q]);
    }
    forall q: nat, n: nat, k: int | Holds(t, q, n, k) ensures k in t.idrs[n] && t.idrs[n][k].owner == q {
      ReserveKeepsHeld(s, p, nr, q, n, k);
    }
    forall n: nat, k: int | n < |t.idrs| && k in t.idrs[n] ensures EntryOk(t, n, k) {
      ReserveKeepsEntries(s, p, nr, n, k);
    }
  }

  /** Publishing marks numbers and moves none. */
  lemma {:induction false} PublishKeeps(s: State, p: nat, q: nat, n: nat, k: int)
    requires Inv(s) && p in s.pids && s.pids[p].phase == Filling(0)
    ensures var t := Apply(s, Publish(p));
            && (Holds(t, q, n, k) <==> Holds(s, q, n, k))
            && (n < |s.idrs| ==> n < |t.idrs| && t.idrs[n].Keys == s.idrs[n].Keys)
  {
    var t := Apply(s, Publish(p));
    if n < |s.idrs| {
      assert t.idrs[n] == PublishIn(s, p, n);
      var l := s.tree[n].level;
      if l < |s.pids[p].numbers| && Holds(s, p, n, s.pids[p].numbers[l].nr) {
        assert s.pids[p].numbers[l].nr in s.idrs[n];
      }
    }
  }

  lemma {:induction false} PublishKeepsHeld(s: State, p: nat, q: nat, n: nat, k: int)
    requires Inv(s) && p in s.pids && s.pids[p].phase == Filling(0) && Holds(Apply(s, Publish(p)), q, n, k)
    ensures k in Apply(s, Publish(p)).idrs[n] && Apply(s, Publish(p)).idrs[n][k].owner == q
  {
    PublishKeeps(s, p, q, n, k);
    assert Holds(s, q, n, k);
    assert Apply(s, Publish(p)).idrs[n] == PublishIn(s, p, n);
  }

  lemma {:induction false} PublishKeepsEntries(s: State, p: nat, n: nat, k: int)
    requires Inv(s) && p in s.pids && s.pids[p].phase == Filling(0)
    requires n < |s.idrs| && k in Apply(s, Publish(p)).idrs[n]
    ensures EntryOk(Apply(s, Publish(p)), n, k)
  {
    var t := Apply(s, Publish(p));
    PublishKeeps(s, p, p, n, k);
    assert EntryOk(s, n, k);
    PublishKeeps(s, p, s.idrs[n][k].owner, n, k);
    assert t.idrs[n] == PublishIn(s, p, n);
  }

  lemma {:induction false} PublishInv(s: State, p: nat)
    requires Inv(s) && p in s.pids && s.pids[p].phase == Filling(0)
    ensures Inv(Apply(s, Publish(p)))
  {
    var t := Apply(s, Publish(p));
    assert PidOk(s, s.pids[p]);
    forall q: nat | q in t.pids ensures PidOk(t, t.pids[q]) {
      assert PidOk(s, s.pids[q]);
    }
    forall q: nat, n: nat, k: int | Holds(t, q, n, k) ensures k in t.idrs[n] && t.idrs[n][k].owner == q {
      PublishKeepsHeld(s, p, q, n, k);
    }
    forall n: nat, k: int | n < |t.idrs| && k in t.idrs[n] ensures EntryOk(t, n, k) {
      PublishKeepsEntries(s, p, n, k);
    }
  }

  /** The level a removal is at. */
  function Removing(p: Pid): nat
    requires !p.phase.Filling?
  {
    if p.phase.Live? then 0 else p.phase.done
  }

  lemma {:induction false} RemoveKeepsHeld(s: State, p: nat, q: nat, n: nat, k: int)
    requires Inv(s) && p in s.pids && !s.pids[p].phase.Filling?
    requires Holds(DoRemove(s, p), q, n, k)
    ensures k in DoRemove(s, p).idrs[n] && DoRemove(s, p).idrs[n][k].owner == q
  {
    var i := Removing(s.pids[p]);
    assert PidOk(s, s.pids[p]);
    assert Holds(s, q, n, k);
    if Upid(k, n) == s.pids[p].numbers[i] {
      assert Holds(s, p, n, k);
    }
  }

  lemma {:induction false} RemoveKeepsEntries(s: State, p: nat, n: nat, k: int)
    requires Inv(s) && p in s.pids && !s.pids[p].phase.Filling?
    requires n < |s.idrs| && k in DoRemove(s, p).idrs[n]
    ensures EntryOk(DoRemove(s, p), n, k)
  {
    var i := Removing(s.pids[p]);
    assert PidOk(s, s.pids[p]);
    assert EntryOk(s, n, k);
    var q := s.idrs[n][k].owner;
    assert q == p ==> s.tree[n].level != i;
  }

  lemma {:induction false} RemoveInv(s: State, p: nat)
    requires Inv(s) && p in s.pids && !s.pids[p].phase.Filling?
    ensures Inv(DoRemove(s, p))
  {
    var t := DoRemove(s, p);
    assert PidOk(s, s.pids[p]);
    forall q: nat | q in t.pids ensures PidOk(t, t.pids[q]) {
      assert PidOk(s, s.pids[q]);
    }
    forall q: nat, n: nat, k: int | Holds(t, q, n, k) ensures k in t.idrs[n] && t.idrs[n][k].owner == q {
      RemoveKeepsHeld(s, p, q, n, k);
    }
    forall n: nat, k: int | n < |t.idrs| && k in t.idrs[n] ensures EntryOk(t, n, k) {
      RemoveKeepsEntries(s, p, n, k);
    }
  }

  lemma {:induction false} StepInv(s: State, a: Action)
    requires Inv(s)
    ensures Inv(Apply(s, a))
  {
    match a
    case Unshare(parent) => if parent < |s.tree| { UnshareInv(s, parent); }
    case Begin(ns, p) => BeginInv(s, ns, p);
    case Reserve(p, nr) => if CanReserve(s, p, nr) { ReserveInv(s, p, nr); }
    case Publish(p) => if p in s.pids && s.pids[p].phase == Filling(0) { PublishInv(s, p); }
    case Remove(p) => if p in s.pids && !s.pids[p].phase.Filling? { RemoveInv(s, p); }
  }

  lemma {:induction false} RunInv(s: State, actions: seq<Action>)
    requires Inv(s)
    ensures Inv(ApplyAll(s, actions))
    decreases |actions|
  {
    if actions != [] {
      StepInv(s, actions[0]);
      RunInv(Apply(s, actions[0]), actions[1..]);
    }
  }

  /** For a pid that has all its numbers, a scan comes across it exactly where it holds a number from 2 up. */
  lemma {:induction false} InScanHolds(s: State, n: nat, p: nat)
    requires Inv(s) && n < |s.tree| && p in s.pids && s.pids[p].phase.Live?
    ensures s.pids[p].ns < |s.tree|
    ensures InScan(s, n, p) <==> exists nr: int :: nr >= 2 && Holds(s, p, n, nr)
    ensures forall nr: int :: Holds(s, p, n, nr) ==> nr < s.pidMax && IsAncestor(s.tree, n, s.pids[p].ns)
  {
    assert PidOk(s, s.pids[p]);
    AncestorIsUnique(s.tree, n, s.pids[p].ns);
    if InScan(s, n, p) {
      assert Holds(s, p, n, s.pids[p].numbers[s.tree[n].level].nr);
    }
  }

  // --- Main results ---

  /** Under every interleaving, the used numbers of a namespace are exactly those held by pids, nobody shares
      a number, and every number a pid holds belongs to its unique ancestor of that level. */
  lemma {:induction false} NumbersAreExactAndUnique(pidMax: nat, actions: seq<Action>)
    ensures var s := ApplyAll(Boot(pidMax), actions);
            && WellFormed(s.tree) && |s.idrs| == |s.tree|
            && (forall n: nat, nr: int :: 0 <= n < |s.idrs| ==> (nr in s.idrs[n] <==> exists p :: Holds(s, p, n, nr)))
            && (forall p: nat, q: nat, n: nat, nr: int :: Holds(s, p, n, nr) && Holds(s, q, n, nr) ==> p == q)
            && (forall p: nat, i: nat :: p in s.pids && HoldsAt(s.pids[p], i) ==>
                  && s.pids[p].ns < |s.tree| && i <= s.tree[s.pids[p].ns].level
                  && s.pids[p].numbers[i].ns == Ancestor(s.tree, s.pids[p].ns, i)
                  && (s.pids[p].numbers[i].nr > 0 ==> Holds(s, p, s.pids[p].numbers[i].ns, s.pids[p].numbers[i].nr)))
  {
    RunInv(Boot(pidMax), actions);
    var s := ApplyAll(Boot(pidMax), actions);
    forall n: nat, nr: int | 0 <= n < |s.idrs| ensures nr in s.idrs[n] <==> exists p :: Holds(s, p, n, nr) {
      if nr in s.idrs[n] {
        assert EntryOk(s, n, nr);
      }
    }
    forall p: nat, i: nat | p in s.pids && HoldsAt(s.pids[p], i)
      ensures s.pids[p].ns < |s.tree| && i <= s.tree[s.pids[p].ns].level
              && s.pids[p].numbers[i].ns == Ancestor(s.tree, s.pids[p].ns, i)
    {
      assert PidOk(s, s.pids[p]);
    }
  }

  /** When every pid is gone, every number is free again. */
  lemma {:induction false} NothingLeaks(pidMax: nat, actions: seq<Action>)
    requires ApplyAll(Boot(pidMax), actions).pids == map[]
    ensures var s := ApplyAll(Boot(pidMax), actions);
            forall n :: 0 <= n < |s.idrs| ==> s.idrs[n] == map[]
  {
    RunInv(Boot(pidMax), actions);
    var s := ApplyAll(Boot(pidMax), actions);
    forall n | 0 <= n < |s.idrs| ensures s.idrs[n] == map[] {
      forall nr: int ensures nr !in s.idrs[n] {
        assert nr in s.idrs[n] ==> EntryOk(s, n, nr);
      }
    }
  }
}
