# Verified models of the course's cores

Dafny 4.11 models of the parts of this Linux and Kubernetes course that carry a real invariant: the eBPF
packet counter, the PID allocator printed in the notes, two two-process protocols, a namespace launcher, an
optimistic charge, two mountinfo parsers, and the array, index and counter algorithms of the tools.
`dafny verify dfyconfig.toml` checks the whole project; nothing is executed.

| file | models |
|---|---|
| `BpfMachine.dfy` | the instruction macros, the fourteen-slot program, and a small eBPF machine (RFC 9669) that decodes and steps it |
| `BpfCounter.dfy` | the array map, one run of the filter, and any number of runs interleaved instruction by instruction |
| `PidNamespaces.dfy`, `PidTable.dfy`, `PidZap.dfy` | the PID listings: as atomic steps under per-namespace locks, as the printed loops, and with the killing scan taken one number at a time |
| `EchoProtocol.dfy` | the TCP echo client and server over byte streams with partial reads and resets |
| `Inotify.dfy` | record packing and walk; the child, the kernel queue and the parent's event and drain loops |
| `MiniUnshare.dfy` | argument loop, flag mask, `unshare`, `fork` |
| `PidsCharge.dfy` | `pids_fork` under concurrent forks, exits and limit writes |
| `MountInfo.dfy` | Go string functions, the strict and the lenient mountinfo parser, the kernel's line format |
| `TopOom.dfy` | the bubble-up insertion into the fixed array |
| `Dedup.dfy`, `NsIndex.dfy`, `StealPct.dfy` | first-occurrence lists, the inode index, wrapping CPU counters |
| `Bytes.dfy`, `Counting.dfy` | little-endian words and counting, shared by the others |

How to read it. Concurrency is a list of actions applied one after the other, each action one atomic step of
some process; a theorem about every action list is a theorem about every interleaving. Where an action is not
possible it changes nothing (PIDs, charge, counter, inotify) or the list is required to be legal (echo). Code
that runs on its own is written as methods over arrays, classes and local state and tied to the same
specification: `PidTable.AllocPid`, for instance, is proved equal to an uninterrupted run of the interleaved
steps.

What turned out different from the text around the code:

- The allocation listing reads `set_tid[i]` and then overwrites it with the cyclic pick, so a requested PID
  never reaches the result (01-process-model/kernel/01-c-pid-namespaces.md:416-424); `AllocPid` states which number it gets.
- The listing has no error branch in its loop: in a full namespace the negative error is recorded as the number.
  The model keeps that; such a level holds nothing, and a process let in that way escapes the whole scan
  (`FullNamespaceEscapes`). The listing's lower bound is 1, the prose at line 63 names RESERVED_PIDS; the model
  follows the listing.
- `zap_pid_ns_processes` closes the one namespace it is called for. Its own processes cannot slip through the scan,
  but one that enters a nested namespace with a number the scan has already passed can (`NestedProcessSlips`); a
  process escapes exactly when every scan past its number was past it at its entry already. If entry below a closed
  namespace is blocked as well, nobody is missed.
- The increment of the packet counter is a load, an add and a store, so packets can be lost: with N runs every
  final count from 1 to N is reachable, and none is lost exactly when no store falls between the load and the
  store of another run.
- The inotify drain loop ends on any failed poll or read without a word. The child-done path prints every event
  exactly when none of its polls and reads failed with events queued; `DrainCanLoseEvents` gives a run where one
  does. An interruption is harmless: it can only come while nothing is queued.
- `pids_fork` can refuse overlapping forks although nothing runs; `SpuriousRefusal` gives the run. A fork is refused
  exactly when the live and in-flight forks at its add fill the limit read at its compare.
- A mountinfo record reads back exactly when none of its optional fields is a lone "-". The kernel escapes space,
  tab, newline and backslash, not every character that ends a field, so `Printable` asks for single words.
- A second CPU snapshot that could not be read is all zeros and lets the steal percentage pass 100.

## Model

| member | source | states |
|---|---|---|
| BpfInsn.DecodedSlots | 07-ebpf/exercises/bpf-syscall-demo/bpf_syscall_demo.c:49-118 | the bytes the macros build decode to the fourteen intended operations; the second slot of the wide load is not an instruction |
| BpfInsn.ProgramBytes | 07-ebpf/exercises/bpf-syscall-demo/bpf_syscall_demo.c:180-219 | the loaded program is these fourteen encodings: opcode byte, registers, offset and immediate of each |
| BpfMachine.MachineIsStrict | 07-ebpf/exercises/bpf-syscall-demo/bpf_syscall_demo.c:196-197 | the machine faults on every read of an undefined register and every reserved opcode, and a helper call leaves r1 to r5 undefined and r6 to r10 alone |
| BpfMachine.StepOfProgram | 07-ebpf/exercises/bpf-syscall-demo/bpf_syscall_demo.c:180-219 | from any slot the program never faults (no undefined or clobbered register is read, slot 2 is never executed), goes to the right slot, and writes the map only at slot 11 |
| BpfMachine.ProgramCountsOnePacket | 07-ebpf/exercises/bpf-syscall-demo/bpf_syscall_demo.c:161-219 | for every map, context and stack the program exits within fourteen instructions, adds 1 modulo 2^64 to slot 0 and nothing else, and returns 1; on NULL it writes nothing and returns 0 |
| BpfCounter.ArrayMap.constructor | 07-ebpf/exercises/bpf-syscall-demo/bpf_syscall_demo.c:136-156 | a new map has eight entries, all zero |
| BpfCounter.ArrayMap.Update | 07-ebpf/exercises/bpf-syscall-demo/bpf_syscall_demo.c:334-349 | a key in range is overwritten and nothing else changes; any other key is refused |
| BpfCounter.ArrayMap.Get | 07-ebpf/exercises/bpf-syscall-demo/bpf_syscall_demo.c:356-370 | returns the value of a key in range, refuses any other |
| BpfCounter.ArrayMap.RunFilter | 07-ebpf/exercises/bpf-syscall-demo/bpf_syscall_demo.c:161-219 | the same for the fetch-execute loop on the shared map object |
| BpfCounter.Demo | 07-ebpf/exercises/bpf-syscall-demo/bpf_syscall_demo.c:379-404 | after one packet and the userspace write the program reads back 1 and 42 |
| BpfCounter.InterleavedCounter | 07-ebpf/exercises/bpf-syscall-demo/bpf_syscall_demo.c:205-212 | under every interleaving slot 0 is at most the number of completed stores, at least 1 after the first, and equal to it iff in the schedule no store falls between the load and the store of another run |
| BpfCounter.SequentialRunsCountAll | 07-ebpf/exercises/bpf-syscall-demo/bpf_syscall_demo.c:205-212 | runs that do not overlap count every packet |
| BpfCounter.EveryCountIsReachable | 07-ebpf/exercises/bpf-syscall-demo/bpf_syscall_demo.c:205-212 | every count from 1 to the number of runs is the outcome of some interleaving |
| PidNamespaces.AncestorIsUnique | 01-process-model/kernel/01-c-pid-namespaces.md:412-414 | walking up to a level finds the one ancestor of that level |
| PidNamespaces.AncestorsAreParents | 01-process-model/kernel/01-c-pid-namespaces.md:412-414 | the ancestor one level up is the parent, and ancestors of ancestors are ancestors |
| PidNamespaces.NumbersAreExactAndUnique | 01-process-model/kernel/01-c-pid-namespaces.md:397-460 | under every interleaving of allocations and frees, used numbers are exactly those held by pids, no two pids share one, and each belongs to the unique ancestor of its level |
| PidNamespaces.NothingLeaks | 01-process-model/kernel/01-c-pid-namespaces.md:443-460 | when all pids are gone every number of every namespace is free |
| PidTable.PidTable.ReserveLevel | 01-process-model/kernel/01-c-pid-namespaces.md:409-430 | one pass of the loop is one atomic reservation in the ancestor of that level: the least free number at or past the cursor, else the least free one, else an error; the cursor moves behind it |
| PidTable.FreedIsNotReused | 01-process-model/kernel/01-c-pid-namespaces.md:62-64 | a number freed behind the cursor does not come back while a free one lies ahead |
| PidTable.PidTable.CreatePidNamespace | 01-process-model/kernel/01-c-pid-namespaces.md:210-216 | a namespace one level below its parent, with no numbers in use; nothing else changes |
| PidTable.PidTable.Attach | 01-process-model/kernel/01-c-pid-namespaces.md:518-519 | a process enters with its pid exactly when its own namespace is not closed |
| PidTable.PidTable.AllocPid | 01-process-model/kernel/01-c-pid-namespaces.md:397-433 | an uninterrupted run of the atomic steps; in every ancestor, whatever `set_tid` asks for, the pid gets the least free number at or past the cursor, else the least free one, else an error; every other number, cursor and pid is as before |
| PidTable.PidTable.FreePid | 01-process-model/kernel/01-c-pid-namespaces.md:454-460 | afterwards exactly this pid's numbers are free again, everybody else's are held as before |
| PidTable.PidTable.ZapPidNsProcesses | 01-process-model/kernel/01-c-pid-namespaces.md:519-531 | closes the namespace and leaves a signal pending on exactly the processes of it and of those below it whose number in it is 2 or more |
| PidTable.ZapHitsExactlyTheSubtree | 01-process-model/kernel/01-c-pid-namespaces.md:510-531 | in every reachable state the scan finds exactly the processes of the namespace and its descendants that hold a number other than 1 there; nobody outside is signalled |
| PidZap.ScanCatchesExactly | 01-process-model/kernel/01-c-pid-namespaces.md:518-531 | with the scan taken one number at a time between allocations, frees, entries and exits: a process has the signal pending iff some scan passed its number after it entered; it slips through iff every scan past its number was past it at its entry, and the scan of its own namespace never is |
| PidZap.ScanMissesNobody | 01-process-model/kernel/01-c-pid-namespaces.md:518-531 | when a scan is through, everybody left in the namespace itself with a number from 2 up has the signal pending, and everybody below it too if entries below a closed namespace are blocked; nobody outside a closed namespace has it |
| PidZap.ExitThenFree | 01-process-model/kernel/01-c-pid-namespaces.md:454-460 | whatever scans are under way, a live pid can exit and give back all its numbers, and nobody else is affected |
| PidZap.NestedProcessSlips | 01-process-model/kernel/01-c-pid-namespaces.md:518-531 | closing only the one namespace, a process of a nested one survives the whole scan in a reachable state |
| PidZap.FullNamespaceEscapes | 01-process-model/kernel/01-c-pid-namespaces.md:424-428 | for every largest number, a reachable full namespace with a live process that the finished scan passed by |
| EchoProtocol.EchoIsConserved | 06-network/exercises/tcp-echo-demo/tcp_echo_demo.c:62-72 | sent bytes equal received, then in flight back, then held by the server, then in flight forward; a waiting client is owed its last message and sees no end of file |
| EchoProtocol.NeverDeadlocks | 06-network/exercises/tcp-echo-demo/tcp_echo_demo.c:125-148 | some process can move exactly until both are done |
| EchoProtocol.AlwaysTerminates | 06-network/exercises/tcp-echo-demo/tcp_echo_demo.c:125-148 | no schedule is longer than the work at its start, and one that cannot go on is over |
| EchoProtocol.EverySessionEnds | 06-network/exercises/tcp-echo-demo/tcp_echo_demo.c:62-148 | every session is finite, with an explicit bound on its steps, and stops only when client and server are both done |
| EchoProtocol.WholeReadsEchoExactly | 06-network/exercises/tcp-echo-demo/tcp_echo_demo.c:133-143 | in every reachable state the echoes so far equal their messages iff each read was as long as its message; if so at the close, no reset is possible |
| EchoProtocol.RunSession | 06-network/exercises/tcp-echo-demo/tcp_echo_demo.c:40-152 | under every schedule a whole session ends with one read per message and a received prefix; a reset means bytes were owed; a schedule prescribed to the end leads to exactly its own final state |
| EchoProtocol.ReadsTakeAnyLength | 06-network/exercises/tcp-echo-demo/tcp_echo_demo.c:62 | with k bytes there, the possible reads of either side are exactly 1 to min(255, k) bytes, and a read takes that many from the front |
| EchoProtocol.WhoIsHeldUp | 06-network/exercises/tcp-echo-demo/tcp_echo_demo.c:62-148 | in which states the client, and in which the server, cannot move; a reset is possible exactly when the client closed with bytes owed |
| EchoProtocol.WholeEchoIsPossible | 06-network/exercises/tcp-echo-demo/tcp_echo_demo.c:133-143 | messages of 1 to 255 bytes can all come back whole in one session |
| EchoProtocol.Connection.Serve | 06-network/exercises/tcp-echo-demo/tcp_echo_demo.c:62-72 | however the client's bytes arrive and whatever the reads return, the server sends back all it received, in order |
| InotifyRecords.ReadRecord | 05-vfs-storage/exercises/inotify-demo/inotify_demo.c:202-211 | the casts at the pointer read the record that starts there and the pointer moves past its name |
| InotifyRecords.RecordLayout | 05-vfs-storage/exercises/inotify-demo/inotify_demo.c:202-211 | the record of any event with a name field of up to 256 bytes: watch, mask, cookie and length as little-endian words at 0, 4, 8 and 12, the name at 16 |
| InotifyRecords.TenEventsFit | 05-vfs-storage/exercises/inotify-demo/inotify_demo.c:28 | a read of the buffer takes at least ten queued events, and never more than 2720 bytes |
| InotifyRecords.Walk | 05-vfs-storage/exercises/inotify-demo/inotify_demo.c:199-212 | over any packed list of events the walk yields exactly that list and stops at the end of the data |
| InotifyRecords.PackInjective | 05-vfs-storage/exercises/inotify-demo/inotify_demo.c:202-211 | equal buffers come from equal event lists |
| InotifyRecords.Watch.Drain | 05-vfs-storage/exercises/inotify-demo/inotify_demo.c:216-237 | an undisturbed drain prints every queued event in order through the real buffer |
| InotifyLoop.EventsPrintedInOrder | 05-vfs-storage/exercises/inotify-demo/inotify_demo.c:162-241 | in every run the printed events are a prefix of the emitted ones; a run finished by the child-done path printed all of them iff no poll or read of its drain failed with events queued |
| InotifyLoop.LeavesLoopOnlyOnError | 05-vfs-storage/exercises/inotify-demo/inotify_demo.c:162-197 | in every run the parent has given up its event loop iff a poll or read there failed; without that and while the child runs it is in the loop |
| InotifyLoop.ChildIsNeverHeldUp | 05-vfs-storage/exercises/inotify-demo/inotify_demo.c:150-155 | a running child can emit any event, at the end of the queue, or exit, whatever the parent does |
| InotifyLoop.ReadTakesWhatFits | 05-vfs-storage/exercises/inotify-demo/inotify_demo.c:189-212 | a read can take as many events as the buffer holds, prints exactly those, and goes back to the poll |
| InotifyLoop.CallsCanGoWrong | 05-vfs-storage/exercises/inotify-demo/inotify_demo.c:172-224 | where a failed or interrupted call leads, in the event loop and in the drain |
| InotifyLoop.DrainCanLoseEvents | 05-vfs-storage/exercises/inotify-demo/inotify_demo.c:221-224 | a failed poll ends the drain with an event unread |
| InotifyLoop.UndisturbedParentPrintsAll | 05-vfs-storage/exercises/inotify-demo/inotify_demo.c:162-237 | once the child has exited, no undisturbed schedule of the parent exceeds its work, and one that cannot go on ended a quiet drain with everything printed |
| InotifyLoop.ParentFinishes | 05-vfs-storage/exercises/inotify-demo/inotify_demo.c:162-237 | after the child's exit, from every reachable point, also between a poll timeout and `waitpid`, unless a call of the event loop failed or the drain was cut short: every undisturbed continuation is bounded, and one that cannot go on has printed everything |
| MiniUnshare.OrAddsType | 02-namespaces/exercises/mini-unshare/mini_unshare.c:79 | or-ing in a flag adds exactly its namespace type |
| MiniUnshare.OptionTable | 02-namespaces/exercises/mini-unshare/mini_unshare.c:16-24 | each option name and its CLONE_NEW* bit in the kernel's numbers |
| MiniUnshare.AcceptedShape | 02-namespaces/exercises/mini-unshare/mini_unshare.c:64-94 | a program name, options, `--` and a command is accepted iff there is an option and a command, and asks for exactly the types its options name |
| MiniUnshare.ShapeOfAccepted | 02-namespaces/exercises/mini-unshare/mini_unshare.c:64-94 | every accepted vector has that shape |
| MiniUnshare.ParseArgs | 02-namespaces/exercises/mini-unshare/mini_unshare.c:61-94 | exactly the well-formed vectors are accepted, with exactly the requested types; a refusal names the first offender |
| MiniUnshare.Launch | 02-namespaces/exercises/mini-unshare/mini_unshare.c:101-144 | the executed process differs from the start in exactly the types of the mask, is number 1 of a new PID namespace iff it has the PID flag, and the caller keeps its own PID namespace; which call failed, and the exit status |
| MiniUnshare.UnshareAndExec | 02-namespaces/exercises/mini-unshare/mini_unshare.c:59-144 | the same for what the argument vector asks for, refused vectors included |
| PidsCharge.PidsCgroup.PidsFork | 03-cgroups/kernel/03-c-css-set.md:186-195 | alone, the call charges one below the limit and otherwise refuses without residue |
| PidsCharge.StepsOfOneCall | 03-cgroups/kernel/03-c-css-set.md:186-195 | with nobody in between the steps do what the call does, and fork followed by exit restores the counter |
| PidsCharge.LastLimitIsInForce | 03-cgroups/kernel/03-c-css-set.md:190 | the limit compared with is the one written last |
| PidsCharge.ChargeIsSafe | 03-cgroups/kernel/03-c-css-set.md:186-195 | under every interleaving the counter is live plus in-flight forks, so refused forks leave nothing |
| PidsCharge.LiveWithinLimits | 03-cgroups/kernel/03-c-css-set.md:186-195 | no interleaving, not even with changing limits, runs more processes than the largest limit in force so far |
| PidsCharge.RefusedExactlyWhenFull | 03-cgroups/kernel/03-c-css-set.md:186-195 | for any steps between its add and its compare, a fork is refused iff the live and in-flight forks at its add fill the limit at its compare |
| PidsCharge.RollBackLeavesNothing | 03-cgroups/kernel/03-c-css-set.md:186-195 | after any further steps the roll back of a refused fork leaves the charge of exactly the other forks |
| PidsCharge.SpuriousRefusal | 03-cgroups/kernel/03-c-css-set.md:186-195 | two overlapping forks are refused although nothing runs and the limit is 1 |
| GoStrings.FieldsOfJoin | 05-vfs-storage/exercises/mount-inspector/main.go:36 | splitting undoes joining words with spaces |
| GoStrings.FieldsAreRuns | 05-vfs-storage/exercises/mount-inspector/main.go:36 | splitting skips white space of any kind and amount and returns the words between |
| GoStrings.AtoiReads | 05-vfs-storage/exercises/mount-inspector/main.go:45 | digits with or without a sign read as their decimal value when it fits 64 bits |
| GoStrings.AtoiReadsOnly | 05-vfs-storage/exercises/mount-inspector/main.go:45 | and nothing else reads as a number |
| GoStrings.ValueIsDecimal | 05-vfs-storage/exercises/mount-inspector/main.go:45 | the value of digits is base ten, most significant first |
| MountInfo.ParseMountInfo | 05-vfs-storage/exercises/mount-inspector/main.go:35-103 | the strict parser's loop computes the field-by-field specification, error for error |
| MountInfo.ParseMountInfoLine | kube-inspect/internal/proc/proc.go:189-232 | the same for the lenient parser |
| MountInfo.LenientReads | kube-inspect/internal/proc/proc.go:189-232 | the lenient parser returns a mount iff its fields are the columns before and after the first lone "-" |
| MountInfo.StrictReads | 05-vfs-storage/exercises/mount-inspector/main.go:35-103 | the same for the strict parser, with device numbers and optional fields |
| MountInfo.WhyRefused | 05-vfs-storage/exercises/mount-inspector/main.go:35-103 | which error a refused line gets |
| MountInfo.StrictIsLenientPlusDevice | kube-inspect/internal/proc/proc.go:189-232 | on every line strict accepts iff lenient accepts and field 2 is two integers with a colon between, and then all shared fields agree |
| MountInfo.PrintThenParse | 05-vfs-storage/exercises/mount-inspector/main.go:28-103 | printing and parsing gives the record back iff no optional field is a lone "-" |
| MountInfo.ListPodMounts | kube-inspect/internal/proc/proc.go:173-184 | from the file text, trimmed and split at newlines, the table reader keeps exactly the accepted lines, in order |
| MountInfo.AcceptedLinesSplit | kube-inspect/internal/proc/proc.go:174-183 | what is kept of two texts together is what is kept of each: a refused line never affects another |
| MountInfo.AcceptedOne | kube-inspect/internal/proc/proc.go:174-183 | of one line its mount is kept iff the lenient parser accepts it |
| MountInfo.TrimIsHarmless | kube-inspect/internal/proc/proc.go:174 | trimming the text first changes nothing |
| MountInfo.TableReadsBack | kube-inspect/internal/proc/proc.go:173-184 | the text of a table reads back as the pod's view of every printed record in it, in order, whatever refused lines stand between them |
| TopOom.RankedIsStableSort | 09-k8s-internals/exercises/oom-score-demo/oom_score_demo.c:78-111 | the specification is a permutation, descending, and keeps the order of equal scores |
| TopOom.StableSortIsUnique | 09-k8s-internals/exercises/oom-score-demo/oom_score_demo.c:78-111 | those properties determine it |
| TopOom.TopOfInsert | 09-k8s-internals/exercises/oom-score-demo/oom_score_demo.c:100-102 | forgetting everything below the first n before an insertion does not change the first n |
| TopOom.BubbleUp | 09-k8s-internals/exercises/oom-score-demo/oom_score_demo.c:106-109 | the swap loop puts the new entry behind all entries with at least its score |
| TopOom.InsertEntry | 09-k8s-internals/exercises/oom-score-demo/oom_score_demo.c:100-110 | the array goes from the first n before to the first n after the entry |
| TopOom.ShowTopOom | 09-k8s-internals/exercises/oom-score-demo/oom_score_demo.c:71-117 | the first n, at most sixteen, of the stable descending sort of all scored processes, each score with its own pid |
| TopOom.ScoredSplit | 09-k8s-internals/exercises/oom-score-demo/oom_score_demo.c:86-93 | each process counts on its own: it is ranked iff its pid and score are positive |
| Dedup.FirstByIdempotent | kube-inspect/internal/ebpf/ebpf.go:232-256 | a second pass changes nothing |
| Dedup.KeptKeysAreNew | kube-inspect/internal/ebpf/ebpf.go:242-255 | no nonzero ID is kept twice |
| Dedup.FirstByRepresents | kube-inspect/internal/ebpf/ebpf.go:242-255 | every ID seen is kept at least once |
| Dedup.FirstByPositions | kube-inspect/internal/ebpf/ebpf.go:232-256 | what is kept stands in scan order at exactly the zero-ID positions and the first occurrence of each other ID |
| Dedup.ListPodBPFObjects | kube-inspect/internal/ebpf/ebpf.go:232-256 | the nested loops keep every zero-ID object and the first of each nonzero ID, in scan order |
| Dedup.ObjectsListed | kube-inspect/internal/ebpf/ebpf.go:242-255 | listed are exactly the objects with ID 0 and the first of each other program ID and map ID |
| Dedup.ScansSplit | kube-inspect/internal/ebpf/ebpf.go:236-241 | the scans of the processes are taken together in order |
| Dedup.ScanOfOne | kube-inspect/internal/ebpf/ebpf.go:236-241 | a process that is gone contributes nothing, any other all it has |
| Dedup.DedupAffinities | kube-inspect/internal/sched/sched.go:111-120 | the loop keeps the first process of each joined key |
| Dedup.OnePerCpusAndMems | kube-inspect/internal/sched/sched.go:114 | as long as no CPU list contains the separator, that is the first process of each pair |
| Dedup.AffinitiesListed | kube-inspect/internal/sched/sched.go:111-120 | listed are exactly the first processes of each pair of CPU list and memory list |
| NsIndex.BuildGroups | 02-namespaces/exercises/namespace-inspector/main.go:143-148 | the index holds, for each nonzero inode, exactly the scan of that inode: a process is in a group iff it has that inode |
| NsIndex.MembersSplit | 02-namespaces/exercises/namespace-inspector/main.go:143-148 | the scan of two lists together is the two scans in order |
| NsIndex.OneProcess | 02-namespaces/exercises/namespace-inspector/main.go:143-148 | one process is in the scan of the inode it has, and counts as readable iff it has one |
| NsIndex.CountDistinct | 02-namespaces/exercises/namespace-inspector/main.go:178-184 | the distinct count is the number of different nonzero inodes the processes have |
| NsIndex.InodesAre | 02-namespaces/exercises/namespace-inspector/main.go:178-184 | these are the inodes of the index |
| NsIndex.Peers | 02-namespaces/exercises/namespace-inspector/main.go:120-125 | the scan finds the group without the process itself |
| NsIndex.WithoutSplit | 02-namespaces/exercises/namespace-inspector/main.go:120-125 | leaving out a pid keeps everybody else, in order |
| NsIndex.PeersAreGroupMinusSelf | 02-namespaces/exercises/namespace-inspector/main.go:120-125 | with distinct pids that is exactly one fewer |
| NsIndex.GroupSizesAddUp | 02-namespaces/exercises/namespace-inspector/main.go:143-148 | in any enumeration the group sizes add up to the processes with a readable inode |
| NsIndex.ShowSharedGroups | 02-namespaces/exercises/namespace-inspector/main.go:149-168 | exactly the groups of two to eight, in ascending inode order whatever order the map is ranged over, each with exactly its members, ascending by pid |
| StealPct.DeltasAreTrue | kube-inspect/internal/virt/virt.go:159-168 | the wrapped deltas are the true ones iff fewer than 2^64 ticks passed; then the percentage times the ticks passed is a hundred times the ticks stolen, it is 0 when no tick passed, and it lies between 0 and 100 |
| StealPct.FailedSecondRead | kube-inspect/internal/virt/virt.go:129-168 | with an unreadable second snapshot the percentage passes 100 iff some but not all of the time was stolen |

## Left out

- Reading `/proc`, `/sys` and devices, ptrace and perf, sockets and signals: file contents, process lists and call results are parameters or actions.
- Printing, JSON and usage texts; `decode_mask` and the other finite tables.
- eBPF beyond the instructions of this one program: any other opcode, 8-byte stack access and value offsets other than 0 count as faults of the modelled machine; the kernel verifier and JIT are not part of this model.
- The part of `alloc_pid` the listing elides: taken to make the reserved numbers visible to lookups in one step after the loop; error unwinding and reference counts are not modelled.
- `idr_alloc_cyclic` itself: in the interleaved model any free number may be returned, in `AllocPid` the first free one from the cursor.
- Thread groups in `zap_pid_ns_processes` and the wait loop after it. Where a closed namespace is looked at is in parts the listings elide: the model does so when a process enters.
- The 64-bit width of the `pids` counter: reaching it needs 2^63 processes.
- Short or failing writes in the echo demo, which abort it; after the client closes with bytes owed a reset is possible at any later server call.
- The client and server loops run at the same time, and so do the inotify child and parent: they are step relations over values, not objects; the server loop and the drain loop also appear as methods on their own.
- Inotify queue overflow, event merging and events of other processes.
- The order of equal pids in a listed group, which `sort.Slice` leaves open.
- The remount of `/proc` changes no membership and is only reported; `usleep` and scheduling order are arbitrary.
- Go strings are sequences of characters: invalid UTF-8 is not modelled.
- Float rounding in the steal percentage: exact arithmetic is used.
- The key-value, PSI, fdinfo and netdev readers, `cluster-join`, and the `cpu.weight` formulas of the notes, which disagree with each other.
