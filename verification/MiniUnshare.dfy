/** `mini_unshare`: argument loop, flag mask, unshare and fork. */
module MiniUnshare {
  datatype NsType = Mount | Uts | Ipc | Net | Pid | User | Cgroup

  /** The option table, in its order. */
  const NS_FLAGS: seq<NsType> := [Mount, Uts, Ipc, Net, Pid, User, Cgroup]

  function Name(t: NsType): string {
    match t
    case Mount => "mount" case Uts => "uts" case Ipc => "ipc" case Net => "net"
    case Pid => "pid" case User => "user" case Cgroup => "cgroup"
  }

  /** The CLONE_NEW* bits. */
  function Flag(t: NsType): bv32 {
    match t
    case Mount => 0x0002_0000 case Uts => 0x0400_0000 case Ipc => 0x0800_0000 case Net => 0x4000_0000
    case Pid => 0x2000_0000 case User => 0x1000_0000 case Cgroup => 0x0200_0000
  }

  predicate Meets(a: bv32, b: bv32) { a & b != 0 }

  predicate HasFlag(flags: bv32, t: NsType) { Meets(flags, Flag(t)) }

  /** What `unshare` and the tests on `flags` read out of a mask. */
  ghost function TypesOf(flags: bv32): set<NsType> {
    set t: NsType | HasFlag(flags, t)
  }

  /** The table in the kernel's numbers: each option and its CLONE_NEW* bit. */
  lemma OptionTable()
    ensures Name(Mount) == "mount" && Flag(Mount) == 0x0002_0000
    ensures Name(Uts) == "uts" && Flag(Uts) == 0x0400_0000
    ensures Name(Ipc) == "ipc" && Flag(Ipc) == 0x0800_0000
    ensures Name(Net) == "net" && Flag(Net) == 0x4000_0000
    ensures Name(Pid) == "pid" && Flag(Pid) == 0x2000_0000
    ensures Name(User) == "user" && Flag(User) == 0x1000_0000
    ensures Name(Cgroup) == "cgroup" && Flag(Cgroup) == 0x0200_0000
  {
  }

  lemma NsFlagsComplete(t: NsType)
    ensures t in NS_FLAGS
  {
    assert NS_FLAGS[Index(t)] == t;
  }

  lemma MeetsOr(a: bv32, f: bv32, m: bv32)
    ensures Meets(a | f, m) <==> Meets(a, m) || Meets(f, m)
  {
    assert (a | f) & m == (a & m) | (f & m);
  }

  lemma FlagsAreDistinctBits(t: NsType, u: NsType)
    ensures Meets(Flag(t), Flag(u)) <==> t == u
  {
  }

  lemma FlagIsNotZero(t: NsType)
    ensures Flag(t) != 0
  {
  }

  lemma OrIsNotZero(a: bv32, f: bv32)
    requires f != 0
    ensures a | f != 0
  {
  }

  lemma OrHasFlag(flags: bv32, u: NsType, t: NsType)
    ensures HasFlag(flags | Flag(u), t) <==> HasFlag(flags, t) || t == u
    ensures flags | Flag(u) != 0
  {
    FlagsAreDistinctBits(u, t);
    MeetsOr(flags, Flag(u), Flag(t));
    FlagIsNotZero(u);
    OrIsNotZero(flags, Flag(u));
  }

  /** Setting a flag adds exactly its type, so order and repetition of options cannot matter. */
  lemma {:induction false} OrAddsType(flags: bv32, u: NsType)
    ensures TypesOf(flags | Flag(u)) == TypesOf(flags) + {u}
    ensures flags | Flag(u) != 0
  {
    var ored := flags | Flag(u);
    OrHasFlag(flags, u, u);
    forall t ensures t in TypesOf(ored) <==> t in TypesOf(flags) + {u} {
      OrHasFlag(flags, u, t);
    }
  }

  // --- The argument vector ---

  predicate IsOption(arg: string, t: NsType) { arg == "--" + Name(t) }

  ghost predicate GoodOption(arg: string) { exists t :: IsOption(arg, t) }

  /** Options only, then `--` at `d`, then a command. */
  ghost predicate Accepts(argv: seq<string>, d: nat) {
    && 2 <= d && d + 1 < |argv| && argv[d] == "--"
    && forall i :: 1 <= i < d ==> GoodOption(argv[i])
  }

  ghost predicate AsksFor(argv: seq<string>, d: nat, t: NsType)
    requires d <= |argv|
  {
    exists i :: 1 <= i < d && IsOption(argv[i], t)
  }

  ghost function Requested(argv: seq<string>, d: nat): set<NsType>
    requires d <= |argv|
  {
    set t | AsksFor(argv, d, t)
  }

  /** A vector is accepted exactly when it is a program name, one or more options, `--` and a command; it asks
      for the types its options name, however they are ordered or repeated. */
  lemma {:induction false} AcceptedShape(prog: string, options: seq<string>, command: seq<string>, t: NsType)
    requires forall o <- options :: GoodOption(o)
    ensures var argv, d := [prog] + options + ["--"] + command, |options| + 1;
            && argv[d] == "--"
            && (Accepts(argv, d) <==> options != [] && command != [])
            && (t in Requested(argv, d) <==> exists o <- options :: o == "--" + Name(t))
  {
    var argv, d := [prog] + options + ["--"] + command, |options| + 1;
    assert forall i :: 1 <= i < d ==> argv[i] == options[i - 1];
    if t in Requested(argv, d) {
      var i :| 1 <= i < d && IsOption(argv[i], t);
      assert options[i - 1] in options;
    }
    forall o | o in options && o == "--" + Name(t) ensures AsksFor(argv, d, t) {
      var j :| 0 <= j < |options| && options[j] == o;
      assert IsOption(argv[j + 1], t);
    }
  }

  lemma {:induction false} ShapeOfAccepted(argv: seq<string>, d: nat)
    requires Accepts(argv, d)
    ensures var options, command := argv[1..d], argv[d + 1..];
            && argv == [argv[0]] + options + ["--"] + command
            && options != [] && command != [] && forall o <- options :: GoodOption(o)
  {
  }

  datatype Parse = NotAnOption(at: nat) | UnknownNamespace(at: nat) | Incomplete | Accepted(flags: bv32, cmdIdx: nat)

  lemma OptionIsNotSeparator(arg: string)
    requires GoodOption(arg)
    ensures |arg| > 2 && arg[..2] == "--"
  {
  }

  lemma NamesDiffer(t: NsType, u: NsType)
    ensures Name(t) == Name(u) <==> t == u
  {
  }

  lemma OneOption(arg: string, t: NsType, u: NsType)
    requires IsOption(arg, t)
    ensures IsOption(arg, u) <==> u == t
  {
    assert ("--" + Name(u))[2..] == Name(u) && ("--" + Name(t))[2..] == Name(t);
    NamesDiffer(t, u);
  }

  lemma RequestedGrows(argv: seq<string>, i: nat, t: NsType)
    requires 1 <= i < |argv| && IsOption(argv[i], t)
    ensures Requested(argv, i + 1) == Requested(argv, i) + {t}
  {
    forall u ensures AsksFor(argv, i + 1, u) <==> AsksFor(argv, i, u) || u == t {
      OneOption(argv[i], t, u);
    }
  }

  method LookUp(name: string) returns (found: bool, t: NsType)
    ensures found <==> exists u :: name == Name(u)
    ensures found ==> name == Name(t)
  {
    found, t := false, Mount;
    for j := 0 to |NS_FLAGS|
      invariant !found && forall k :: 0 <= k < j ==> name != Name(NS_FLAGS[k])
    {
      if name == Name(NS_FLAGS[j]) {
        return true, NS_FLAGS[j];
      }
    }
    forall u ensures name != Name(u) {
      NsFlagsComplete(u);
    }
  }

  datatype Argument = Separator | NoDashes | UnknownName | Option(t: NsType)

  /** The tests one argument goes through. */
  method Classify(arg: string) returns (c: Argument)
    ensures c.Separator? <==> arg == "--"
    ensures c.NoDashes? <==> !("--" <= arg)
    ensures c.Option? <==> GoodOption(arg)
    ensures c.Option? ==> IsOption(arg, c.t)
  {
    if arg == "--" {
      return Separator;
    }
    if !(|arg| >= 2 && arg[..2] == "--") {
      return NoDashes;
    }
    var name := arg[2..];
    assert arg == "--" + name;
    var found, t := LookUp(name);
    if found {
      assert IsOption(arg, t);
      return Option(t);
    }
    forall u ensures !IsOption(arg, u) {
      assert ("--" + Name(u))[2..] == Name(u);
    }
    return UnknownName;
  }

  /** How the argument loop ends. */
  datatype Stop = AtSeparator | AtEnd | NotOption | Unknown

  /** The argument loop: `flags` holds the types of the options before argument `i`, where it stops. */
  method ReadOptions(argv: seq<string>) returns (stop: Stop, i: nat, flags: bv32)
    ensures 1 <= i && (forall j :: 1 <= j < i && j < |argv| ==> GoodOption(argv[j]))
    ensures stop.AtEnd? <==> i >= |argv|
    ensures i <= |argv| ==> TypesOf(flags) == Requested(argv, i)
    ensures flags == 0 <==> i == 1
    ensures stop.AtSeparator? ==> argv[i] == "--"
    ensures stop.NotOption? || stop.Unknown? ==>
              argv[i] != "--" && !GoodOption(argv[i]) && (stop.NotOption? <==> !("--" <= argv[i]))
  {
    i, flags := 1, 0;
    NoFlags(argv);
    while i < |argv|
      invariant 1 <= i && (i <= |argv| || i == 1)
      invariant forall j :: 1 <= j < i ==> GoodOption(argv[j])
      invariant i <= |argv| ==> TypesOf(flags) == Requested(argv, i)
      invariant flags == 0 <==> i == 1
    {
      var arg := Classify(argv[i]);
      match arg
      case Separator => return AtSeparator, i, flags;
      case NoDashes => return NotOption, i, flags;
      case UnknownName => return Unknown, i, flags;
      case Option(t) =>
        OrAddsType(flags, t);
        RequestedGrows(argv, i, t);
        flags := flags | Flag(t);
        i := i + 1;
    }
    return AtEnd, i, flags;
  }

  /** The argument loop and the check behind it: exactly the well-formed vectors are accepted, with exactly
      the requested types, and a refusal names the first offending argument. */
  method ParseArgs(argv: seq<string>) returns (r: Parse)
    ensures r.Accepted? <==> exists d: nat :: Accepts(argv, d)
    ensures r.Accepted? ==>
              r.cmdIdx > 0 && Accepts(argv, r.cmdIdx - 1) && TypesOf(r.flags) == Requested(argv, r.cmdIdx - 1)
    ensures r.NotAnOption? || r.UnknownNamespace? ==>
              && 1 <= r.at < |argv| && (forall i :: 1 <= i < r.at ==> GoodOption(argv[i]))
              && argv[r.at] != "--" && !GoodOption(argv[r.at])
              && (r.NotAnOption? <==> !("--" <= argv[r.at]))
    ensures r.Incomplete? ==>
              || (forall i :: 1 <= i < |argv| ==> GoodOption(argv[i]))
              || (exists d :: 1 <= d < |argv| && argv[d] == "--" && (d == 1 || d + 1 == |argv|))
  {
    var stop, i, flags := ReadOptions(argv);
    if stop.NotOption? {
      NoSeparatorBefore(argv, i);
      return NotAnOption(i);
    }
    if stop.Unknown? {
      NoSeparatorBefore(argv, i);
      return UnknownNamespace(i);
    }
    OnlySeparator(argv, i);
    var cmdIdx: int := if stop.AtSeparator? then i + 1 else -1;
    if flags == 0 || cmdIdx < 0 || cmdIdx >= |argv| {
      return Incomplete;
    }
    assert Accepts(argv, i);
    return Accepted(flags, cmdIdx);
  }

  lemma NoFlags(argv: seq<string>)
    ensures TypesOf(0) == {}
    ensures |argv| >= 1 ==> Requested(argv, 1) == {}
  {
    forall t ensures !HasFlag(0, t) {}
    assert |argv| >= 1 ==> forall t :: !AsksFor(argv, 1, t);
  }

  /** Behind `i` options, only `i` can be the separator of an accepted vector. */
  lemma OnlySeparator(argv: seq<string>, i: nat)
    requires 1 <= i && forall j :: 1 <= j < i && j < |argv| ==> GoodOption(argv[j])
    requires i < |argv| ==> argv[i] == "--"
    ensures forall d: nat :: Accepts(argv, d) ==> d == i
  {
    forall d: nat | Accepts(argv, d) ensures d == i {
      if d < i {
        OptionIsNotSeparator(argv[d]);
      } else if i < d {
        OptionIsNotSeparator(argv[i]);
      }
    }
  }

  lemma NoSeparatorBefore(argv: seq<string>, i: nat)
    requires 1 <= i < |argv| && argv[i] != "--" && !GoodOption(argv[i])
    requires forall j :: 1 <= j < i ==> GoodOption(argv[j])
    ensures !exists d: nat :: Accepts(argv, d)
  {
    forall d: nat | Accepts(argv, d) ensures false {
      if d < i { OptionIsNotSeparator(argv[d]); }
    }
  }

  lemma OneSeparator(argv: seq<string>, d: nat, e: nat)
    requires Accepts(argv, d) && Accepts(argv, e)
    ensures d == e
  {
    if d < e {
      OptionIsNotSeparator(argv[d]);
    } else if e < d {
      OptionIsNotSeparator(argv[e]);
    }
  }

  // --- Namespaces of a process ---

  /** `ns` gives a process's namespace of each type, `pidForChildren` the PID namespace its children get. */
  datatype Proc = Proc(ns: map<NsType, nat>, pidForChildren: nat, pid: nat)

  /** Namespaces from `nextNs` on do not exist yet; `nextPid` is the next number in each PID namespace. */
  datatype Kernel = Kernel(nextNs: nat, nextPid: map<nat, nat>)

  ghost predicate WellFormed(k: Kernel, p: Proc) {
    && (forall t: NsType :: t in p.ns && p.ns[t] < k.nextNs)
    && p.pidForChildren < k.nextNs && p.pidForChildren in k.nextPid
  }

  function Index(t: NsType): (i: nat)
    ensures i < 7
  {
    match t case Mount => 0 case Uts => 1 case Ipc => 2 case Net => 3 case Pid => 4 case User => 5 case Cgroup => 6
  }

  /** `unshare(2)`: a fresh namespace per flag; a new PID namespace is kept for the children. */
  function Unshare(k: Kernel, p: Proc, flags: bv32): (Kernel, Proc) {
    var ns := map t | t in p.ns :: if t != Pid && HasFlag(flags, t) then k.nextNs + Index(t) else p.ns[t];
    if HasFlag(flags, Pid)
    then (Kernel(k.nextNs + 7, k.nextPid[k.nextNs + Index(Pid) := 1]), Proc(ns, k.nextNs + Index(Pid), p.pid))
    else (Kernel(k.nextNs + 7, k.nextPid), Proc(ns, p.pidForChildren, p.pid))
  }

  /** `fork(2)`: the child is born into `pidForChildren` with that namespace's next number. */
  function Fork(k: Kernel, p: Proc): (Kernel, Proc)
    requires p.pidForChildren in k.nextPid
  {
    var nr := k.nextPid[p.pidForChildren];
    (k.(nextPid := k.nextPid[p.pidForChildren := nr + 1]), Proc(p.ns[Pid := p.pidForChildren], p.pidForChildren, nr))
  }

  /** How a command ends: with an exit status, or killed by a signal. */
  datatype Ending = Exited(status: nat) | Signaled

  /** What the system calls answer, and how the command ends if it starts. */
  datatype Calls = Calls(unshareOk: bool, forkOk: bool, execOk: bool, waitOk: bool, command: Ending)

  datatype Outcome =
    | Usage
    | UnshareFailed
    | ForkFailed
    | ExecFailed(process: Proc, caller: Proc, remountsProc: bool)
    | Executed(process: Proc, caller: Proc, remountsProc: bool)

  predicate Reached(o: Outcome) { o.ExecFailed? || o.Executed? }

  /** Without a child the program ends as its command does; a waiting parent passes an exit status on, and
      everything else is 1. */
  predicate EndsAs(ending: Ending, o: Outcome, forked: bool, calls: Calls) {
    if !o.Executed? then ending == Exited(1)
    else if !forked then ending == calls.command
    else if calls.waitOk && calls.command.Exited? then ending == calls.command
    else ending == Exited(1)
  }

  /** The executed process differs from the starting one in exactly the wanted namespaces, each of them new,
      and is number 1 of a new PID namespace iff that was wanted; the caller keeps its own PID namespace. */
  ghost predicate Isolated(k: Kernel, p: Proc, wanted: set<NsType>, process: Proc, caller: Proc) {
    && (forall t: NsType :: t in process.ns && t in p.ns)
    && (forall t: NsType :: process.ns[t] != p.ns[t] <==> t in wanted)
    && (forall t <- wanted :: process.ns[t] >= k.nextNs)
    && (process.pid == 1 && process.ns[Pid] >= k.nextNs <==> Pid in wanted)
    && Pid in caller.ns && caller.ns[Pid] == p.ns[Pid] && caller.pid == p.pid
    && (forall t: NsType :: t != Pid ==> t in caller.ns && caller.ns[t] == process.ns[t])
    && (Pid !in wanted ==> process == caller)
  }

  lemma UnshareIsolates(flags: bv32, k: Kernel, p: Proc)
    requires WellFormed(k, p)
    ensures var (k1, caller) := Unshare(k, p, flags);
            && caller.pidForChildren in k1.nextPid
            && Isolated(k, p, TypesOf(flags), if HasFlag(flags, Pid) then Fork(k1, caller).1 else caller, caller)
  {
  }

  /** Everything from `unshare` to `execvp`, and the parent's wait when there is a child. */
  method Launch(flags: bv32, k: Kernel, p: Proc, calls: Calls) returns (o: Outcome, ending: Ending)
    requires WellFormed(k, p)
    ensures !o.Usage?
    ensures o.UnshareFailed? <==> !calls.unshareOk
    ensures o.ForkFailed? <==> calls.unshareOk && Pid in TypesOf(flags) && !calls.forkOk
    ensures Reached(o) ==> (o.Executed? <==> calls.execOk)
                           && Isolated(k, p, TypesOf(flags), o.process, o.caller)
                           && (o.remountsProc <==> Pid in TypesOf(flags) && Mount in TypesOf(flags))
    ensures EndsAs(ending, o, Pid in TypesOf(flags), calls)
  {
    if !calls.unshareOk {
      return UnshareFailed, Exited(1);
    }
    UnshareIsolates(flags, k, p);
    var (k1, caller) := Unshare(k, p, flags);
    var process := caller;
    if HasFlag(flags, Pid) {
      if !calls.forkOk {
        return ForkFailed, Exited(1);
      }
      var (_, child) := Fork(k1, caller);
      process := child;
    }
    var remounts := HasFlag(flags, Pid) && HasFlag(flags, Mount);
    o := if calls.execOk then Executed(process, caller, remounts) else ExecFailed(process, caller, remounts);
    ending := if calls.execOk then calls.command else Exited(1);
    if HasFlag(flags, Pid) {
      ending := if calls.waitOk && ending.Exited? then Exited(ending.status) else Exited(1);
    }
  }

  /** The whole program: what an argument vector asks for is what the executed process gets. */
  method UnshareAndExec(argv: seq<string>, k: Kernel, p: Proc, calls: Calls) returns (o: Outcome, ending: Ending)
    requires WellFormed(k, p)
    ensures o.Usage? <==> !exists d: nat :: Accepts(argv, d)
    ensures o.Usage? ==> ending == Exited(1)
    ensures forall d: nat :: Accepts(argv, d) ==>
              var wanted := Requested(argv, d);
              && (o.UnshareFailed? <==> !calls.unshareOk)
              && (o.ForkFailed? <==> calls.unshareOk && Pid in wanted && !calls.forkOk)
              && (Reached(o) ==> (o.Executed? <==> calls.execOk)
                                 && Isolated(k, p, wanted, o.process, o.caller)
                                 && (o.remountsProc <==> Pid in wanted && Mount in wanted))
              && EndsAs(ending, o, Pid in wanted, calls)
  {
    var parsed := ParseArgs(argv);
    if !parsed.Accepted? {
      return Usage, Exited(1);
    }
    forall d: nat | Accepts(argv, d) ensures d == parsed.cmdIdx - 1 {
      OneSeparator(argv, d, parsed.cmdIdx - 1);
    }
    assert forall d: nat :: Accepts(argv, d) ==> Requested(argv, d) == TypesOf(parsed.flags);
    o, ending := Launch(parsed.flags, k, p, calls);
  }
}
