/** The packet counter: the array map, one run of the filter to completion, and interleaved runs. */
module BpfCounter {
  import opened Bytes
  import opened Counting
  import opened BpfInsn
  import opened BpfMachine

  const MAX_ENTRIES: nat := 8

  /** The shared map, as userspace and the filter see it. */
  class ArrayMap {
    var values: seq<u64>

    constructor ()
      ensures |values| == 8 && forall i :: 0 <= i < 8 ==> values[i] == 0
    {
      values := seq(MAX_ENTRIES, _ => 0);
    }

    /** BPF_MAP_UPDATE_ELEM with BPF_ANY; a key past the last entry is refused. */
    method Update(key: u32, value: u64) returns (ok: bool)
      modifies this
      ensures ok <==> key < |old(values)|
      ensures values == if ok then old(values)[key := value] else old(values)
    {
      ok := key < |values|;
      if ok { values := values[key := value]; }
    }

    /** BPF_MAP_LOOKUP_ELEM. */
    method Get(key: u32) returns (ok: bool, value: u64)
      ensures ok <==> key < |values|
      ensures value == if ok then values[key] else 0
    {
      ok, value := key < |values|, 0;
      if ok { value := values[key]; }
    }

    /** Runs the loaded filter on one packet: it halts without a fault, adds one to slot 0 modulo 2^64 and
        accepts; when the lookup gives NULL it writes nothing and drops. */
    method RunFilter(mapFd: int, entry: Cpu) returns (r0: u64)
      requires Entry(entry)
      modifies this
      ensures |old(values)| > 0 ==>
                r0 == 1 && values == old(values)[0 := (old(values)[0] + 1) % TWO_TO_THE_64]
      ensures |old(values)| == 0 ==> r0 == 0 && values == old(values)
    {
      var cpu := entry;
      while true
        invariant At(cpu, mapFd, |values|) && |values| == |old(values)|
        invariant |values| == 0 ==> cpu.pc != 12
        invariant cpu.pc <= 11 || |values| == 0 ==> values == old(values)
        invariant cpu.pc == 10 ==> cpu.regs[2].bits == old(values)[0]
        invariant cpu.pc == 11 ==> cpu.regs[2].bits == (old(values)[0] + 1) % TWO_TO_THE_64
        invariant cpu.pc >= 12 && |values| > 0 ==>
                    values == old(values)[0 := (old(values)[0] + 1) % TWO_TO_THE_64]
        decreases 14 - cpu.pc
      {
        StepOfProgram(mapFd, cpu, values);
        match Step(LoadedProgram(mapFd), mapFd, cpu, values)
        case Running(next, newValues) =>
          cpu := next;
          values := newValues;
        case Exited(result, newValues) =>
          values := newValues;
          return result;
      }
    }
  }

  /** The demo: one packet, then a userspace write to slot 1, then both reads. */
  method Demo(mapFd: int, entry: Cpu) returns (counter: u64, val1: u64)
    requires Entry(entry)
    ensures counter == 1 && val1 == 42
  {
    var counters := new ArrayMap();
    var _ := counters.RunFilter(mapFd, entry);
    var _ := counters.Update(1, 42);
    var _, c := counters.Get(0);
    var _, v := counters.Get(1);
    counter, val1 := c, v;
  }

  /** One run of the filter. `seen` is bookkeeping: how many stores had completed at this run's load. */
  datatype Proc = Active(cpu: Cpu, seen: nat) | Done(r0: u64) | Crashed

  /** `stores` counts completed stores; the program does not see it. */
  datatype State = State(values: seq<u64>, procs: seq<Proc>, stores: nat)

  datatype Action = Exec(i: nat) | UserWrite(key: nat, value: u64)

  /** What an instruction of run `i` leaves behind. */
  function Settle(s: State, i: nat, o: Outcome): State
    requires i < |s.procs| && s.procs[i].Active?
  {
    var p := s.procs[i];
    match o
    case Faulted(_) => s.(procs := s.procs[i := Crashed])
    case Exited(r0, values) => s.(procs := s.procs[i := Done(r0)], values := values)
    case Running(cpu, values) =>
      State(values, s.procs[i := Active(cpu, if p.cpu.pc == 9 then s.stores else p.seen)],
            if p.cpu.pc == 11 then s.stores + 1 else s.stores)
  }

  /** One instruction of one run, or a userspace write to a slot other than 0; anything else changes nothing. */
  function Apply(mapFd: int, s: State, a: Action): State {
    match a
    case UserWrite(key, value) =>
      if 0 < key < |s.values| then s.(values := s.values[key := value]) else s
    case Exec(i) =>
      if i >= |s.procs| || !s.procs[i].Active? then s else
      Settle(s, i, Step(LoadedProgram(mapFd), mapFd, s.procs[i].cpu, s.values))
  }

  /** Userspace writes land between any two instructions, and no run notices one outside slot 0. */
  lemma UserWriteLands(mapFd: int, s: State, key: nat, value: u64)
    requires 0 < key < |s.values|
    ensures Apply(mapFd, s, UserWrite(key, value)) == s.(values := s.values[key := value])
  {
  }

  function ApplyAll(mapFd: int, s: State, actions: seq<Action>): State
    decreases |actions|
  {
    if actions == [] then s else ApplyAll(mapFd, Apply(mapFd, s, actions[0]), actions[1..])
  }

  /** Runs that have all been triggered and not yet executed an instruction. */
  predicate Initial(s: State) {
    && 0 < |s.values| && s.values[0] == 0 && |s.procs| < TWO_TO_THE_64
    && s.stores == 0
    && forall p <- s.procs :: p.Active? && Entry(p.cpu)
  }

  predicate HasStored(p: Proc) { p.Done? || (p.Active? && p.cpu.pc > 11) }

  /** A value loaded when `seen` stores had completed. */
  ghost predicate Loaded(v: int, seen: nat, s: State)
    requires 0 < |s.values|
  {
    v <= seen <= s.stores && (seen == s.stores ==> v == s.values[0])
  }

  ghost predicate ProcOk(mapFd: int, p: Proc, s: State)
    requires 0 < |s.values|
  {
    match p
    case Active(cpu, seen) =>
      && At(cpu, mapFd, |s.values|)
      && (cpu.pc == 10 ==> Loaded(cpu.regs[2].bits, seen, s))
      && (cpu.pc == 11 ==> 0 < cpu.regs[2].bits && Loaded(cpu.regs[2].bits - 1, seen, s))
    case Done(r0) => r0 == 1
    case Crashed => false
  }

  ghost predicate Inv(mapFd: int, s: State) {
    && 0 < |s.values| && |s.procs| < TWO_TO_THE_64
    && s.stores == Count(s.procs, HasStored)
    && s.values[0] <= s.stores
    && (0 < s.stores ==> 0 < s.values[0])
    && forall i :: 0 <= i < |s.procs| ==> ProcOk(mapFd, s.procs[i], s)
  }

  lemma {:induction false} InitialInv(mapFd: int, s: State)
    requires Initial(s)
    ensures Inv(mapFd, s)
  {
    CountAll(s.procs, HasStored);
  }

  /** What one instruction of run `i` does to the shared state, by slot. */
  ghost predicate ExecRel(mapFd: int, s: State, i: nat, t: State) {
    && i < |s.procs| == |t.procs| && s.procs[i].Active? && 0 < |s.values| == |t.values|
    && At(s.procs[i].cpu, mapFd, |s.values|)
    && t.procs == s.procs[i := t.procs[i]]
    && var p := s.procs[i];
    && t.stores == s.stores + (if p.cpu.pc == 11 then 1 else 0)
    && t.values == (if p.cpu.pc == 11 then s.values[0 := p.cpu.regs[2].bits] else s.values)
    && if p.cpu.pc == 13 then t.procs[i] == Done(1) else
        && t.procs[i].Active? && At(t.procs[i].cpu, mapFd, |t.values|)
        && t.procs[i].cpu.pc == NextSlot(p.cpu.pc, |s.values|)
        && t.procs[i].seen == (if p.cpu.pc == 9 then s.stores else p.seen)
        && (p.cpu.pc == 9 ==> t.procs[i].cpu.regs[2] == Scalar(s.values[0]))
        && (p.cpu.pc == 10 ==> t.procs[i].cpu.regs[2].bits == p.cpu.regs[2].bits + 1)
  }

  lemma {:induction false} SettleEffect(mapFd: int, s: State, i: nat, o: Outcome)
    requires Inv(mapFd, s) && i < |s.procs| && s.procs[i].Active?
    requires At(s.procs[i].cpu, mapFd, |s.values|) && StepsRight(o, mapFd, s.procs[i].cpu, s.values)
    ensures ExecRel(mapFd, s, i, Settle(s, i, o))
  {
    CountAll(s.procs, HasStored);
    assert s.procs[i] in s.procs && ProcOk(mapFd, s.procs[i], s);
  }

  lemma {:induction false} ExecEffect(mapFd: int, s: State, i: nat)
    requires Inv(mapFd, s) && i < |s.procs| && s.procs[i].Active?
    ensures ExecRel(mapFd, s, i, Apply(mapFd, s, Exec(i)))
  {
    assert ProcOk(mapFd, s.procs[i], s);
    StepOfProgram(mapFd, s.procs[i].cpu, s.values);
    SettleEffect(mapFd, s, i, Step(LoadedProgram(mapFd), mapFd, s.procs[i].cpu, s.values));
  }

  lemma {:induction false} ExecKeepsInv(mapFd: int, s: State, i: nat, t: State)
    requires Inv(mapFd, s) && ExecRel(mapFd, s, i, t)
    ensures Inv(mapFd, t)
  {
    var p := s.procs[i];
    assert ProcOk(mapFd, p, s);
    CountUpdate(s.procs, i, t.procs[i], HasStored);
    forall j | 0 <= j < |t.procs| ensures ProcOk(mapFd, t.procs[j], t) {
      assert ProcOk(mapFd, s.procs[j], s);
    }
  }

  lemma {:induction false} WriteKeepsInv(mapFd: int, s: State, values: seq<u64>)
    requires Inv(mapFd, s) && |values| == |s.values| && values[0] == s.values[0]
    ensures Inv(mapFd, s.(values := values))
  {
    var t := s.(values := values);
    forall j | 0 <= j < |t.procs| ensures ProcOk(mapFd, t.procs[j], t) {
      assert ProcOk(mapFd, s.procs[j], s);
    }
  }

  lemma {:induction false} StepInv(mapFd: int, s: State, a: Action)
    requires Inv(mapFd, s)
    ensures Inv(mapFd, Apply(mapFd, s, a))
  {
    match a
    case Exec(i) =>
      if i < |s.procs| && s.procs[i].Active? {
        ExecEffect(mapFd, s, i);
        ExecKeepsInv(mapFd, s, i, Apply(mapFd, s, a));
      }
    case UserWrite(key, value) =>
      if 0 < key < |s.values| { WriteKeepsInv(mapFd, s, s.values[key := value]); }
  }

  lemma {:induction false} RunInv(mapFd: int, s: State, actions: seq<Action>)
    requires Inv(mapFd, s)
    ensures Inv(mapFd, ApplyAll(mapFd, s, actions))
    decreases |actions|
  {
    if actions != [] {
      StepInv(mapFd, s, actions[0]);
      RunInv(mapFd, Apply(mapFd, s, actions[0]), actions[1..]);
    }
  }

  lemma {:induction false} ProcsKept(mapFd: int, s: State, actions: seq<Action>)
    ensures |ApplyAll(mapFd, s, actions).procs| == |s.procs|
    decreases |actions|
  {
    if actions != [] { ProcsKept(mapFd, Apply(mapFd, s, actions[0]), actions[1..]); }
  }

  // --- Isolated windows ---

  /** Run `i` is about to execute slot `pc`. */
  predicate Stands(s: State, i: nat, pc: nat) {
    i < |s.procs| && s.procs[i].Active? && s.procs[i].cpu.pc == pc
  }

  predicate Loads(s: State, a: Action) { a.Exec? && Stands(s, a.i, 9) }
  predicate Stores(s: State, a: Action) { a.Exec? && Stands(s, a.i, 11) }

  ghost predicate NeverStores(mapFd: int, s: State, i: nat, actions: seq<Action>)
    decreases |actions|
  {
    actions != [] ==>
      !(Stores(s, actions[0]) && actions[0].i == i) && NeverStores(mapFd, Apply(mapFd, s, actions[0]), i, actions[1..])
  }

  /** Of all stores from here on that of run `i`, if it comes, is the first. */
  ghost predicate StoresFirst(mapFd: int, s: State, i: nat, actions: seq<Action>)
    decreases |actions|
  {
    actions != [] ==>
      var t := Apply(mapFd, s, actions[0]);
      if Stores(s, actions[0]) then actions[0].i == i || NeverStores(mapFd, t, i, actions[1..])
      else StoresFirst(mapFd, t, i, actions[1..])
  }

  /** No store falls between the load and the store of another run. */
  ghost predicate Isolated(mapFd: int, s: State, actions: seq<Action>)
    decreases |actions|
  {
    actions != [] ==>
      var t := Apply(mapFd, s, actions[0]);
      && (Loads(s, actions[0]) ==> StoresFirst(mapFd, t, actions[0].i, actions[1..]))
      && Isolated(mapFd, t, actions[1..])
  }

  /** The same for a window already open: nobody has stored since the load of run `i`, or it must not store. */
  ghost predicate WindowOk(mapFd: int, s: State, i: nat, actions: seq<Action>)
    requires i < |s.procs| && s.procs[i].Active?
  {
    if s.procs[i].seen == s.stores then StoresFirst(mapFd, s, i, actions) else NeverStores(mapFd, s, i, actions)
  }

  predicate InWindow(s: State, i: nat) { Stands(s, i, 10) || Stands(s, i, 11) }

  ghost predicate WindowsOk(mapFd: int, s: State, actions: seq<Action>) {
    forall i :: 0 <= i < |s.procs| && InWindow(s, i) ==> WindowOk(mapFd, s, i, actions)
  }

  /** Which windows one action opens and closes, from `s` to `t`. */
  ghost predicate Moved(s: State, a: Action, i: nat, t: State)
    requires i < |s.procs|
  {
    && |t.procs| == |s.procs|
    && (InWindow(s, i) && !(Stores(s, a) && a.i == i) ==> InWindow(t, i) && t.procs[i].seen == s.procs[i].seen)
    && (InWindow(t, i) && !InWindow(s, i) ==> Loads(s, a) && a.i == i && t.procs[i].seen == t.stores == s.stores)
    && (InWindow(t, i) && InWindow(s, i) ==> !(Stores(s, a) && a.i == i))
    && (Loads(s, a) && a.i == i ==> InWindow(t, i) && !InWindow(s, i))
    && t.stores == s.stores + (if Stores(s, a) then 1 else 0)
    && (InWindow(s, i) ==> s.procs[i].seen <= s.stores)
  }

  lemma {:induction false} ExecMoves(mapFd: int, s: State, e: nat, t: State, i: nat)
    requires Inv(mapFd, s) && i < |s.procs| && ExecRel(mapFd, s, e, t)
    ensures Moved(s, Exec(e), i, t)
  {
    assert ProcOk(mapFd, s.procs[i], s);
  }

  lemma {:induction false} WindowsMove(mapFd: int, s: State, a: Action, i: nat)
    requires Inv(mapFd, s) && i < |s.procs|
    ensures Moved(s, a, i, Apply(mapFd, s, a))
  {
    if a.Exec? && a.i < |s.procs| && s.procs[a.i].Active? {
      ExecEffect(mapFd, s, a.i);
      ExecMoves(mapFd, s, a.i, Apply(mapFd, s, a), i);
    } else {
      assert ProcOk(mapFd, s.procs[i], s);
    }
  }

  lemma {:induction false} WindowKept(mapFd: int, s: State, a: Action, i: nat, rest: seq<Action>)
    requires Inv(mapFd, s) && i < |s.procs| && InWindow(s, i) && !(Stores(s, a) && a.i == i)
    ensures var t := Apply(mapFd, s, a);
            i < |t.procs| && InWindow(t, i) && (WindowOk(mapFd, s, i, [a] + rest) <==> WindowOk(mapFd, t, i, rest))
  {
    WindowsMove(mapFd, s, a, i);
    assert ([a] + rest)[0] == a && ([a] + rest)[1..] == rest;
  }

  /** A store keeps the count exact iff the count was exact and nobody had stored since its load. */
  lemma {:induction false} StoreCounts(mapFd: int, s: State, a: Action)
    requires Inv(mapFd, s)
    ensures var t := Apply(mapFd, s, a);
            && |t.values| == |s.values|
            && (t.values[0] == t.stores <==>
                  s.values[0] == s.stores && (Stores(s, a) ==> s.procs[a.i].seen == s.stores))
  {
    if a.Exec? && a.i < |s.procs| && s.procs[a.i].Active? {
      ExecEffect(mapFd, s, a.i);
      assert ProcOk(mapFd, s.procs[a.i], s);
    }
  }

  /** The window of the run that stores is fine iff nobody had stored since its load. */
  lemma {:induction false} OwnWindow(mapFd: int, s: State, a: Action, rest: seq<Action>)
    requires Stores(s, a)
    ensures WindowOk(mapFd, s, a.i, [a] + rest) <==> s.procs[a.i].seen == s.stores
  {
    assert ([a] + rest)[0] == a && ([a] + rest)[1..] == rest;
  }

  lemma {:induction false} WindowsAfter(mapFd: int, s: State, a: Action, rest: seq<Action>)
    requires Inv(mapFd, s) && WindowsOk(mapFd, s, [a] + rest)
    requires Loads(s, a) ==> StoresFirst(mapFd, Apply(mapFd, s, a), a.i, rest)
    ensures WindowsOk(mapFd, Apply(mapFd, s, a), rest) && (Stores(s, a) ==> s.procs[a.i].seen == s.stores)
  {
    var t := Apply(mapFd, s, a);
    forall i | 0 <= i < |t.procs| && InWindow(t, i) ensures WindowOk(mapFd, t, i, rest) {
      ProcsKept(mapFd, s, [a]);
      WindowsMove(mapFd, s, a, i);
      if InWindow(s, i) { WindowKept(mapFd, s, a, i, rest); }
    }
    if Stores(s, a) { OwnWindow(mapFd, s, a, rest); }
  }

  lemma {:induction false} WindowsBefore(mapFd: int, s: State, a: Action, rest: seq<Action>)
    requires Inv(mapFd, s) && WindowsOk(mapFd, Apply(mapFd, s, a), rest)
    requires Stores(s, a) ==> s.procs[a.i].seen == s.stores
    ensures WindowsOk(mapFd, s, [a] + rest)
    ensures Loads(s, a) ==> StoresFirst(mapFd, Apply(mapFd, s, a), a.i, rest)
  {
    forall i | 0 <= i < |s.procs| && InWindow(s, i) ensures WindowOk(mapFd, s, i, [a] + rest) {
      if Stores(s, a) && a.i == i {
        OwnWindow(mapFd, s, a, rest);
      } else {
        WindowKept(mapFd, s, a, i, rest);
      }
    }
    if Loads(s, a) { WindowsMove(mapFd, s, a, a.i); }
  }

  lemma {:induction false} ExactWhenIsolated(mapFd: int, s: State, actions: seq<Action>)
    requires Inv(mapFd, s)
    ensures var t := ApplyAll(mapFd, s, actions);
            && 0 < |t.values|
            && (t.values[0] == t.stores <==>
                  s.values[0] == s.stores && Isolated(mapFd, s, actions) && WindowsOk(mapFd, s, actions))
    decreases |actions|
  {
    if actions != [] {
      var a, rest := actions[0], actions[1..];
      var t := Apply(mapFd, s, a);
      assert actions == [a] + rest;
      StepInv(mapFd, s, a);
      StoreCounts(mapFd, s, a);
      ExactWhenIsolated(mapFd, t, rest);
      if Isolated(mapFd, s, actions) && WindowsOk(mapFd, s, actions) {
        WindowsAfter(mapFd, s, a, rest);
      }
      if WindowsOk(mapFd, t, rest) && (Stores(s, a) ==> s.procs[a.i].seen == s.stores) {
        WindowsBefore(mapFd, s, a, rest);
      }
    } else {
      EmptyWindows(mapFd, s);
    }
  }

  lemma {:induction false} EmptyWindows(mapFd: int, s: State)
    ensures Isolated(mapFd, s, []) && WindowsOk(mapFd, s, [])
  {
    forall i | 0 <= i < |s.procs| && InWindow(s, i) ensures WindowOk(mapFd, s, i, []) {
      assert StoresFirst(mapFd, s, i, []) && NeverStores(mapFd, s, i, []);
    }
  }

  /** Under every interleaving: no run faults, slot 0 lies between 1 and the number of completed stores once
      there is one, and it equals that number exactly when every load-to-store window was isolated. */
  lemma {:induction false} InterleavedCounter(mapFd: int, start: State, actions: seq<Action>)
    requires Initial(start)
    ensures var s := ApplyAll(mapFd, start, actions);
            && |s.procs| == |start.procs| && 0 < |s.values|
            && (forall p <- s.procs :: !p.Crashed? && (p.Done? ==> p.r0 == 1))
            && s.stores == Count(s.procs, HasStored)
            && s.values[0] <= s.stores
            && (0 < s.stores ==> 1 <= s.values[0])
            && (s.values[0] == s.stores <==> Isolated(mapFd, start, actions))
            && ((forall p <- s.procs :: p.Done?) ==> s.stores == |start.procs|)
  {
    InitialInv(mapFd, start);
    RunInv(mapFd, start, actions);
    ProcsKept(mapFd, start, actions);
    ExactWhenIsolated(mapFd, start, actions);
    var s := ApplyAll(mapFd, start, actions);
    CountAll(s.procs, HasStored);
    forall p | p in s.procs ensures !p.Crashed? && (p.Done? ==> p.r0 == 1) {
      var i :| 0 <= i < |s.procs| && s.procs[i] == p;
      assert ProcOk(mapFd, s.procs[i], s);
    }
  }

  predicate MidRun(p: Proc) { p.Active? && 0 < p.cpu.pc }

  /** Whenever a run executes an instruction, no other run is between its first and last instruction. */
  ghost predicate NonOverlapping(mapFd: int, s: State, actions: seq<Action>)
    decreases |actions|
  {
    actions != [] ==>
      && (actions[0].Exec? ==> forall j :: 0 <= j < |s.procs| && j != actions[0].i ==> !MidRun(s.procs[j]))
      && NonOverlapping(mapFd, Apply(mapFd, s, actions[0]), actions[1..])
  }

  ghost predicate Undisturbed(s: State) {
    && 0 < |s.values| && s.values[0] == s.stores
    && forall i :: 0 <= i < |s.procs| && InWindow(s, i) ==> s.procs[i].seen == s.stores
  }

  lemma {:induction false} NonOverlappingIsIsolated(mapFd: int, s: State, actions: seq<Action>)
    requires Inv(mapFd, s) && Undisturbed(s) && NonOverlapping(mapFd, s, actions)
    ensures var t := ApplyAll(mapFd, s, actions); 0 < |t.values| && t.values[0] == t.stores
    decreases |actions|
  {
    if actions != [] {
      var a, t := actions[0], Apply(mapFd, s, actions[0]);
      StepInv(mapFd, s, a);
      StoreCounts(mapFd, s, a);
      ProcsKept(mapFd, s, [a]);
      forall i | 0 <= i < |t.procs| && InWindow(t, i) ensures t.procs[i].seen == t.stores {
        WindowsMove(mapFd, s, a, i);
        assert InWindow(s, i) ==> MidRun(s.procs[i]);
      }
      NonOverlappingIsIsolated(mapFd, t, actions[1..]);
    }
  }

  /** Runs that do not overlap count every packet. */
  lemma {:induction false} SequentialRunsCountAll(mapFd: int, start: State, actions: seq<Action>)
    requires Initial(start) && NonOverlapping(mapFd, start, actions)
    ensures var s := ApplyAll(mapFd, start, actions);
            && 0 < |s.values| && s.values[0] == s.stores
            && ((forall p <- s.procs :: p.Done?) ==> s.values[0] == |start.procs|)
  {
    InitialInv(mapFd, start);
    NonOverlappingIsIsolated(mapFd, start, actions);
    InterleavedCounter(mapFd, start, actions);
  }

  // --- Every count from 1 to the number of runs is the outcome of some interleaving ---

  lemma {:induction false} ApplyAllConcat(mapFd: int, s: State, a: seq<Action>, b: seq<Action>)
    ensures ApplyAll(mapFd, s, a + b) == ApplyAll(mapFd, ApplyAll(mapFd, s, a), b)
    decreases |a|
  {
    if a == [] {
      assert a + b == b;
    } else {
      assert (a + b)[1..] == a[1..] + b;
      ApplyAllConcat(mapFd, Apply(mapFd, s, a[0]), a[1..], b);
    }
  }

  /** Run `i` can be driven alone up to, but not through, its increment. */
  lemma {:induction false} DriveToIncrement(mapFd: int, s: State, i: nat) returns (acts: seq<Action>)
    requires Inv(mapFd, s) && i < |s.procs| && s.procs[i].Active? && s.procs[i].cpu.pc <= 9
    ensures var t := ApplyAll(mapFd, s, acts);
            && Inv(mapFd, t) && t.values == s.values
            && |t.procs| == |s.procs| && t.procs == s.procs[i := t.procs[i]]
            && t.procs[i].Active? && t.procs[i].cpu.pc == 10 && t.procs[i].cpu.regs[2] == Scalar(s.values[0])
    decreases 10 - s.procs[i].cpu.pc
  {
    ExecEffect(mapFd, s, i);
    StepInv(mapFd, s, Exec(i));
    var t := Apply(mapFd, s, Exec(i));
    acts := [];
    if s.procs[i].cpu.pc < 9 {
      acts := DriveToIncrement(mapFd, t, i);
    }
    ApplyAllConcat(mapFd, s, [Exec(i)], acts);
    assert ApplyAll(mapFd, s, [Exec(i)]) == t;
    acts := [Exec(i)] + acts;
  }

  /** Run `i`, about to increment the value it loaded, can be driven alone to its end. */
  lemma {:induction false} DriveToEnd(mapFd: int, s: State, i: nat) returns (acts: seq<Action>)
    requires Inv(mapFd, s) && i < |s.procs| && s.procs[i].Active? && s.procs[i].cpu.pc >= 10
    ensures var t := ApplyAll(mapFd, s, acts);
            && Inv(mapFd, t) && |t.values| == |s.values|
            && t.procs == s.procs[i := Done(1)]
            && t.values[0] == (if s.procs[i].cpu.pc == 10 then s.procs[i].cpu.regs[2].bits + 1
                               else if s.procs[i].cpu.pc == 11 then s.procs[i].cpu.regs[2].bits
                               else s.values[0])
    decreases 14 - s.procs[i].cpu.pc
  {
    ExecEffect(mapFd, s, i);
    StepInv(mapFd, s, Exec(i));
    var t := Apply(mapFd, s, Exec(i));
    acts := [];
    if s.procs[i].cpu.pc < 13 {
      acts := DriveToEnd(mapFd, t, i);
    }
    ApplyAllConcat(mapFd, s, [Exec(i)], acts);
    assert ApplyAll(mapFd, s, [Exec(i)]) == t;
    acts := [Exec(i)] + acts;
  }

  /** The first `k` runs load together before any of them stores. */
  lemma {:induction false} LoadTogether(mapFd: int, s: State, k: nat) returns (acts: seq<Action>)
    requires Inv(mapFd, s) && k <= |s.procs|
    requires forall p <- s.procs :: p.Active? && p.cpu.pc == 0
    ensures var t := ApplyAll(mapFd, s, acts);
            && Inv(mapFd, t) && t.values == s.values && |t.procs| == |s.procs|
            && (forall j :: 0 <= j < k ==> t.procs[j].Active? && t.procs[j].cpu.pc == 10
                                           && t.procs[j].cpu.regs[2] == Scalar(s.values[0]))
            && (forall j :: k <= j < |t.procs| ==> t.procs[j] == s.procs[j])
  {
    acts := [];
    if k > 0 {
      var before := LoadTogether(mapFd, s, k - 1);
      var mid := ApplyAll(mapFd, s, before);
      var after := DriveToIncrement(mapFd, mid, k - 1);
      ApplyAllConcat(mapFd, s, before, after);
      acts := before + after;
    }
  }

  /** Runs waiting with the same loaded value all store the same number. */
  lemma {:induction false} StoreTogether(mapFd: int, s: State, k: nat, v: u64) returns (acts: seq<Action>)
    requires Inv(mapFd, s) && k <= |s.procs|
    requires forall j :: 0 <= j < k ==>
               s.procs[j].Active? && s.procs[j].cpu.pc == 10 && s.procs[j].cpu.regs[2] == Scalar(v)
    ensures var t := ApplyAll(mapFd, s, acts);
            && Inv(mapFd, t) && |t.values| == |s.values| && |t.procs| == |s.procs|
            && (k > 0 ==> t.values[0] == v + 1) && (k == 0 ==> t.values == s.values)
            && (forall j :: 0 <= j < k ==> t.procs[j] == Done(1))
            && (forall j :: k <= j < |t.procs| ==> t.procs[j] == s.procs[j])
  {
    acts := [];
    if k > 0 {
      var before := StoreTogether(mapFd, s, k - 1, v);
      var mid := ApplyAll(mapFd, s, before);
      var after := DriveToEnd(mapFd, mid, k - 1);
      ApplyAllConcat(mapFd, s, before, after);
      acts := before + after;
    }
  }

  /** The remaining runs, one after the other, add one each. */
  lemma {:induction false} RunRest(mapFd: int, s: State, k: nat) returns (acts: seq<Action>)
    requires Inv(mapFd, s) && k <= |s.procs|
    requires forall j :: 0 <= j < k ==> s.procs[j] == Done(1)
    requires forall j :: k <= j < |s.procs| ==> s.procs[j].Active? && s.procs[j].cpu.pc == 0
    ensures var t := ApplyAll(mapFd, s, acts);
            && Inv(mapFd, t) && |t.procs| == |s.procs|
            && (forall j :: 0 <= j < |t.procs| ==> t.procs[j] == Done(1))
            && t.values[0] == s.values[0] + (|s.procs| - k)
    decreases |s.procs| - k
  {
    acts := [];
    if k < |s.procs| {
      var load := DriveToIncrement(mapFd, s, k);
      var s1 := ApplyAll(mapFd, s, load);
      var store := DriveToEnd(mapFd, s1, k);
      var s2 := ApplyAll(mapFd, s1, store);
      var rest := RunRest(mapFd, s2, k + 1);
      ApplyAllConcat(mapFd, s, load, store);
      ApplyAllConcat(mapFd, s, load + store, rest);
      acts := load + store + rest;
    }
  }

  /** The bounds are tight: any final count from 1 to the number of runs is reached by some interleaving,
      so with two runs one packet can be lost. */
  lemma {:induction false} EveryCountIsReachable(mapFd: int, start: State, count: nat) returns (acts: seq<Action>)
    requires Initial(start) && 1 <= count <= |start.procs|
    ensures var s := ApplyAll(mapFd, start, acts);
            (forall p <- s.procs :: p.Done?) && 0 < |s.values| && s.values[0] == count
  {
    InitialInv(mapFd, start);
    var together := |start.procs| - count + 1;
    var load := LoadTogether(mapFd, start, together);
    var s1 := ApplyAll(mapFd, start, load);
    var store := StoreTogether(mapFd, s1, together, 0);
    var s2 := ApplyAll(mapFd, s1, store);
    var rest := RunRest(mapFd, s2, together);
    ApplyAllConcat(mapFd, start, load, store);
    ApplyAllConcat(mapFd, start, load + store, rest);
    acts := load + store + rest;
  }
}
