/** Raw instructions and the macros that build them. */
module BpfInsn {
  datatype Insn = Insn(code: bv8, dst: nat, src: nat, off: int, imm: int)

  const BPF_LD: bv8 := 0x00
  const BPF_LDX: bv8 := 0x01
  const BPF_ST: bv8 := 0x02
  const BPF_STX: bv8 := 0x03
  const BPF_JMP: bv8 := 0x05
  const BPF_ALU64: bv8 := 0x07
  const BPF_W: bv8 := 0x00
  const BPF_DW: bv8 := 0x18
  const BPF_IMM: bv8 := 0x00
  const BPF_MEM: bv8 := 0x60
  const BPF_ADD: bv8 := 0x00
  const BPF_MOV: bv8 := 0xb0
  const BPF_JEQ: bv8 := 0x10
  const BPF_CALL: bv8 := 0x80
  const BPF_EXIT: bv8 := 0x90
  const BPF_K: bv8 := 0x00
  const BPF_X: bv8 := 0x08
  const BPF_PSEUDO_MAP_FD: nat := 1
  const BPF_FUNC_map_lookup_elem: int := 1

  function Mov64Imm(dst: nat, imm: int): Insn { Insn(BPF_ALU64 | BPF_MOV | BPF_K, dst, 0, 0, imm) }
  function Mov64Reg(dst: nat, src: nat): Insn { Insn(BPF_ALU64 | BPF_MOV | BPF_X, dst, src, 0, 0) }
  function Alu64Imm(op: bv8, dst: nat, imm: int): Insn { Insn(BPF_ALU64 | op | BPF_K, dst, 0, 0, imm) }
  function StMem(size: bv8, dst: nat, off: int, imm: int): Insn { Insn(BPF_ST | BPF_MEM | size, dst, 0, off, imm) }
  function LdxMem(size: bv8, dst: nat, src: nat, off: int): Insn { Insn(BPF_LDX | BPF_MEM | size, dst, src, off, 0) }
  function StxMem(size: bv8, dst: nat, src: nat, off: int): Insn { Insn(BPF_STX | BPF_MEM | size, dst, src, off, 0) }
  function JmpImm(op: bv8, dst: nat, imm: int, off: int): Insn { Insn(BPF_JMP | op | BPF_K, dst, 0, off, imm) }
  function EmitCall(func: int): Insn { Insn(BPF_JMP | BPF_CALL, 0, 0, 0, func) }
  function ExitInsn(): Insn { Insn(BPF_JMP | BPF_EXIT, 0, 0, 0, 0) }
  function LdMapFd(dst: nat, fd: int): seq<Insn> {
    [Insn(BPF_LD | BPF_DW | BPF_IMM, dst, BPF_PSEUDO_MAP_FD, 0, fd), Insn(0, 0, 0, 0, 0)]
  }

  /** The bytecode the demo hands to BPF_PROG_LOAD. */
  function LoadedProgram(mapFd: int): seq<Insn> {
    [Mov64Reg(6, 1)]
    + LdMapFd(1, mapFd)
    + [Mov64Reg(2, 10),
       Alu64Imm(BPF_ADD, 2, -4),
       StMem(BPF_W, 10, -4, 0),
       EmitCall(BPF_FUNC_map_lookup_elem),
       JmpImm(BPF_JEQ, 0, 0, 5),
       Mov64Reg(1, 0),
       LdxMem(BPF_DW, 2, 1, 0),
       Alu64Imm(BPF_ADD, 2, 1),
       StxMem(BPF_DW, 1, 2, 0),
       Mov64Imm(0, 1),
       ExitInsn()]
  }

  /** The program, instruction by instruction, in the encoding of RFC 9669. */
  lemma ProgramBytes(mapFd: int)
    ensures LoadedProgram(mapFd) ==
              [Insn(0xbf, 6, 1, 0, 0), Insn(0x18, 1, 1, 0, mapFd), Insn(0x00, 0, 0, 0, 0), Insn(0xbf, 2, 10, 0, 0),
               Insn(0x07, 2, 0, 0, -4), Insn(0x62, 10, 0, -4, 0), Insn(0x85, 0, 0, 0, 1), Insn(0x15, 0, 0, 5, 0),
               Insn(0xbf, 1, 0, 0, 0), Insn(0x79, 2, 1, 0, 0), Insn(0x07, 2, 0, 0, 1), Insn(0x7b, 1, 2, 0, 0),
               Insn(0xb7, 0, 0, 0, 1), Insn(0x95, 0, 0, 0, 0)]
  {
  }

  /** The instructions of the modelled subset; everything else is reserved and may not be executed. */
  datatype Op = Mov64(fromReg: bool) | Add64(fromReg: bool) | LoadMapFd | Load64 | Store64 | StoreImm32
              | JumpIfEqual(fromReg: bool) | CallHelper | ExitProgram | Reserved

  /** Splits an opcode byte into class, operation and operand source. */
  function Decode(code: bv8): Op {
    var cls, op, fromReg := code & 0x07, code & 0xf0, code & 0x08 == BPF_X;
    if cls == BPF_ALU64 then
      if op == BPF_MOV then Mov64(fromReg) else if op == BPF_ADD then Add64(fromReg) else Reserved
    else if cls == BPF_JMP then
      if op == BPF_JEQ then JumpIfEqual(fromReg)
      else if op == BPF_CALL && !fromReg then CallHelper
      else if op == BPF_EXIT && !fromReg then ExitProgram
      else Reserved
    else
      var mode, size := code & 0xe0, code & 0x18;
      if cls == BPF_LD && mode == BPF_IMM && size == BPF_DW then LoadMapFd
      else if cls == BPF_LDX && mode == BPF_MEM && size == BPF_DW then Load64
      else if cls == BPF_STX && mode == BPF_MEM && size == BPF_DW then Store64
      else if cls == BPF_ST && mode == BPF_MEM && size == BPF_W then StoreImm32
      else Reserved
  }

  /** What each of the fourteen slots decodes to; slot 2 is not an instruction of its own. */
  lemma DecodedSlots(mapFd: int)
    ensures var p := LoadedProgram(mapFd);
            && |p| == 14
            && Decode(p[0].code) == Mov64(true)
            && Decode(p[1].code) == LoadMapFd
            && Decode(p[2].code) == Reserved
            && Decode(p[3].code) == Mov64(true)
            && Decode(p[4].code) == Add64(false)
            && Decode(p[5].code) == StoreImm32
            && Decode(p[6].code) == CallHelper
            && Decode(p[7].code) == JumpIfEqual(false)
            && Decode(p[8].code) == Mov64(true)
            && Decode(p[9].code) == Load64
            && Decode(p[10].code) == Add64(false)
            && Decode(p[11].code) == Store64
            && Decode(p[12].code) == Mov64(false)
            && Decode(p[13].code) == ExitProgram
  {
  }
}

/** A small eBPF machine (RFC 9669, sections 3.1, 3.2, 4.1, 4.3, 5.1 and 5.4) over an array map of 64-bit values. */
module BpfMachine {
  import opened Bytes
  import opened BpfInsn

  const STACK_SIZE: nat := 512

  /** What a register may hold. NULL is the scalar zero, so a pointer is never equal to it. */
  datatype Value = Undefined | Scalar(bits: u64) | Context | Frame(off: int) | MapHandle(fd: int) | MapValue(slot: nat)

  datatype Cpu = Cpu(pc: nat, regs: seq<Value>, stack: seq<byte>)

  datatype Fault = OutsideProgram | ReservedOpcode | BadRegister | UndefinedRead | BadOperand | BadAccess

  datatype Outcome = Running(cpu: Cpu, values: seq<u64>) | Exited(r0: u64, values: seq<u64>) | Faulted(fault: Fault)

  function WriteReg(cpu: Cpu, r: nat, v: Value, values: seq<u64>): Outcome {
    if r < 10 && r < |cpu.regs| then Running(cpu.(regs := cpu.regs[r := v], pc := cpu.pc + 1), values)
    else Faulted(BadRegister)
  }

  function Plus(v: Value, imm: int): Value {
    match v
    case Scalar(bits) => Scalar((bits + imm) % TWO_TO_THE_64)
    case Frame(off) => Frame(off + imm)
    case _ => Undefined
  }

  /** `bpf_map_lookup_elem` on an array map: a pointer to the slot, or NULL past the last entry. */
  function Lookup(stack: seq<byte>, keyAt: int, entries: nat): Value
    requires 0 <= keyAt <= |stack| - 4
  {
    var key := Decode32(stack[keyAt..keyAt + 4]);
    if key < entries then MapValue(key) else Scalar(0)
  }

  /** Executes the instruction at `cpu.pc`. */
  function Step(prog: seq<Insn>, mapFd: int, cpu: Cpu, values: seq<u64>): Outcome {
    if cpu.pc >= |prog| then Faulted(OutsideProgram) else
    var insn := prog[cpu.pc];
    if insn.dst >= |cpu.regs| || insn.src >= |cpu.regs| then Faulted(BadRegister) else
    var dst, src := cpu.regs[insn.dst], cpu.regs[insn.src];
    match Decode(insn.code)
    case Mov64(fromReg) =>
      if !fromReg then WriteReg(cpu, insn.dst, Scalar(insn.imm % TWO_TO_THE_64), values)
      else if src.Undefined? then Faulted(UndefinedRead)
      else WriteReg(cpu, insn.dst, src, values)
    case Add64(fromReg) =>
      if dst.Undefined? then Faulted(UndefinedRead)
      else if fromReg || !(dst.Scalar? || dst.Frame?) then Faulted(BadOperand)
      else WriteReg(cpu, insn.dst, Plus(dst, insn.imm), values)
    case LoadMapFd =>
      if cpu.pc + 1 >= |prog| || prog[cpu.pc + 1].code != 0 || insn.src != BPF_PSEUDO_MAP_FD || insn.imm != mapFd
      then Faulted(BadOperand)
      else
        var next := WriteReg(cpu, insn.dst, MapHandle(mapFd), values);
        if next.Running? then next.(cpu := next.cpu.(pc := cpu.pc + 2)) else next
    case StoreImm32 =>
      if dst.Undefined? then Faulted(UndefinedRead)
      else if !dst.Frame? then Faulted(BadOperand)
      else
        var at := |cpu.stack| + dst.off + insn.off;
        if at < 0 || at + 4 > |cpu.stack| then Faulted(BadAccess)
        else
          var word := Encode32(insn.imm % TWO_TO_THE_32);
          Running(cpu.(stack := cpu.stack[..at] + word + cpu.stack[at + 4..], pc := cpu.pc + 1), values)
    case Load64 =>
      if src.Undefined? then Faulted(UndefinedRead)
      else if !src.MapValue? || src.slot >= |values| || insn.off != 0 then Faulted(BadAccess)
      else WriteReg(cpu, insn.dst, Scalar(values[src.slot]), values)
    case Store64 =>
      if dst.Undefined? || src.Undefined? then Faulted(UndefinedRead)
      else if !dst.MapValue? || dst.slot >= |values| || insn.off != 0 || !src.Scalar? then Faulted(BadAccess)
      else Running(cpu.(pc := cpu.pc + 1), values[dst.slot := src.bits])
    case CallHelper =>
      if |cpu.regs| < 6 || insn.imm != BPF_FUNC_map_lookup_elem then Faulted(BadOperand)
      else if cpu.regs[1].Undefined? || cpu.regs[2].Undefined? then Faulted(UndefinedRead)
      else if cpu.regs[1] != MapHandle(mapFd) || !cpu.regs[2].Frame? then Faulted(BadOperand)
      else
        var keyAt := |cpu.stack| + cpu.regs[2].off;
        if keyAt < 0 || keyAt + 4 > |cpu.stack| then Faulted(BadAccess)
        else
          var clobbered := [Lookup(cpu.stack, keyAt, |values|)] + seq(5, _ => Undefined) + cpu.regs[6..];
          Running(cpu.(regs := clobbered, pc := cpu.pc + 1), values)
    case JumpIfEqual(fromReg) =>
      if dst.Undefined? then Faulted(UndefinedRead)
      else if fromReg then Faulted(BadOperand)
      else if dst == Scalar(insn.imm % TWO_TO_THE_64) then
        var target := cpu.pc + 1 + insn.off;
        if target < 0 then Faulted(OutsideProgram) else Running(cpu.(pc := target), values)
      else Running(cpu.(pc := cpu.pc + 1), values)
    case ExitProgram =>
      if !cpu.regs[0].Scalar? then Faulted(UndefinedRead) else Exited(cpu.regs[0].bits, values)
    case Reserved => Faulted(ReservedOpcode)
  }

  /** The registers an instruction reads. */
  function ReadSet(insn: Insn): set<nat> {
    match Decode(insn.code)
    case Mov64(fromReg) => if fromReg then {insn.src} else {}
    case Add64(fromReg) => if fromReg then {insn.dst, insn.src} else {insn.dst}
    case LoadMapFd => {}
    case Load64 => {insn.src}
    case Store64 => {insn.dst, insn.src}
    case StoreImm32 => {insn.dst}
    case JumpIfEqual(fromReg) => if fromReg then {insn.dst, insn.src} else {insn.dst}
    case CallHelper => {1, 2}
    case ExitProgram => {0}
    case Reserved => {}
  }

  /** The machine faults on every read of an undefined register and on every reserved opcode; a helper call leaves
      the argument registers undefined and the callee-saved ones alone. */
  lemma MachineIsStrict(prog: seq<Insn>, mapFd: int, cpu: Cpu, values: seq<u64>)
    requires |cpu.regs| == 11 && cpu.pc < |prog|
    ensures var insn, o := prog[cpu.pc], Step(prog, mapFd, cpu, values);
            && (Decode(insn.code).Reserved? ==> o.Faulted?)
            && ((exists r <- ReadSet(insn) :: r < 11 && cpu.regs[r].Undefined?) ==> o.Faulted?)
            && (Decode(insn.code).CallHelper? && !o.Faulted? ==>
                  && o.Running? && |o.cpu.regs| == 11
                  && (forall r :: 1 <= r <= 5 ==> o.cpu.regs[r].Undefined?)
                  && (forall r :: 6 <= r <= 10 ==> o.cpu.regs[r] == cpu.regs[r]))
  {
  }

  /** The registers a socket filter starts with: r1 is the packet, r10 the frame, the rest undefined. */
  predicate Entry(cpu: Cpu) {
    && cpu.pc == 0
    && |cpu.regs| == 11 && |cpu.stack| == STACK_SIZE
    && cpu.regs[1] == Context && cpu.regs[10] == Frame(0)
  }

  /** What the loaded program has established when it is about to execute slot `cpu.pc`. */
  ghost predicate At(cpu: Cpu, mapFd: int, entries: nat) {
    && |cpu.regs| == 11 && |cpu.stack| == STACK_SIZE && cpu.regs[10] == Frame(0)
    && cpu.pc <= 13 && cpu.pc != 2
    && (cpu.pc <= 1 ==> cpu.regs[1] == Context)
    && (3 <= cpu.pc <= 6 ==> cpu.regs[1] == MapHandle(mapFd))
    && (cpu.pc == 4 ==> cpu.regs[2] == Frame(0))
    && (5 <= cpu.pc <= 6 ==> cpu.regs[2] == Frame(-4))
    && (cpu.pc == 6 ==> Decode32(cpu.stack[508..512]) == 0)
    && (cpu.pc == 7 ==> cpu.regs[0] == if entries > 0 then MapValue(0) else Scalar(0))
    && (8 <= cpu.pc <= 12 ==> entries > 0)
    && (cpu.pc == 8 ==> cpu.regs[0] == MapValue(0))
    && (9 <= cpu.pc <= 11 ==> cpu.regs[1] == MapValue(0))
    && (10 <= cpu.pc <= 11 ==> cpu.regs[2].Scalar?)
    && (cpu.pc == 13 ==> cpu.regs[0] == Scalar(if entries > 0 then 1 else 0))
  }

  function NextSlot(pc: nat, entries: nat): nat {
    if pc == 1 then 3 else if pc == 7 && entries == 0 then 13 else pc + 1
  }

  /** What one step of the loaded program does: no fault, the right successor slot, and exactly slot 11 writes
      the map. */
  ghost predicate StepsRight(o: Outcome, mapFd: int, cpu: Cpu, values: seq<u64>)
    requires At(cpu, mapFd, |values|)
  {
    if cpu.pc == 13 then o == Exited(if |values| > 0 then 1 else 0, values) else
      && o.Running? && At(o.cpu, mapFd, |values|) && o.cpu.pc == NextSlot(cpu.pc, |values|)
      && o.values == (if cpu.pc == 11 then values[0 := cpu.regs[2].bits] else values)
      && (cpu.pc == 9 ==> o.cpu.regs[2] == Scalar(values[0]))
      && (cpu.pc == 10 ==> o.cpu.regs[2] == Scalar((cpu.regs[2].bits + 1) % TWO_TO_THE_64))
  }

  lemma StepBeforeCall(mapFd: int, cpu: Cpu, values: seq<u64>)
    requires At(cpu, mapFd, |values|) && cpu.pc < 6
    ensures StepsRight(Step(LoadedProgram(mapFd), mapFd, cpu, values), mapFd, cpu, values)
  {
    DecodedSlots(mapFd);
    if cpu.pc == 5 {
      var o := Step(LoadedProgram(mapFd), mapFd, cpu, values);
      assert o.Running? && o.cpu.stack[508..512] == Encode32(0);
      DecodeEncode32(0);
    }
  }

  lemma StepFromCall(mapFd: int, cpu: Cpu, values: seq<u64>)
    requires At(cpu, mapFd, |values|) && cpu.pc >= 6
    ensures StepsRight(Step(LoadedProgram(mapFd), mapFd, cpu, values), mapFd, cpu, values)
  {
    DecodedSlots(mapFd);
  }

  lemma StepOfProgram(mapFd: int, cpu: Cpu, values: seq<u64>)
    requires At(cpu, mapFd, |values|)
    ensures StepsRight(Step(LoadedProgram(mapFd), mapFd, cpu, values), mapFd, cpu, values)
  {
    if cpu.pc < 6 {
      StepBeforeCall(mapFd, cpu, values);
    } else {
      StepFromCall(mapFd, cpu, values);
    }
  }

  /** Up to `fuel` steps of a machine. */
  function Run(step: (Cpu, seq<u64>) -> Outcome, cpu: Cpu, values: seq<u64>, fuel: nat): Outcome
    decreases fuel
  {
    if fuel == 0 then Running(cpu, values)
    else
      match step(cpu, values)
      case Running(next, newValues) => Run(step, next, newValues, fuel - 1)
      case stopped => stopped
  }

  /** The machine with the demo's program loaded. */
  function Filter(mapFd: int): (Cpu, seq<u64>) -> Outcome {
    (cpu: Cpu, values: seq<u64>) => Step(LoadedProgram(mapFd), mapFd, cpu, values)
  }

  /** What slot 0 will hold once a run that stands at `cpu` has ended. */
  function Pending(cpu: Cpu, values: seq<u64>): u64
    requires 0 < |values| && (10 <= cpu.pc <= 11 ==> 2 < |cpu.regs| && cpu.regs[2].Scalar?)
  {
    if cpu.pc < 10 then (values[0] + 1) % TWO_TO_THE_64
    else if cpu.pc == 10 then (cpu.regs[2].bits + 1) % TWO_TO_THE_64
    else if cpu.pc == 11 then cpu.regs[2].bits
    else values[0]
  }

  /** One step towards the end of the run, or its end. */
  ghost predicate Advances(o: Outcome, mapFd: int, cpu: Cpu, values: seq<u64>)
    requires At(cpu, mapFd, |values|)
  {
    if cpu.pc == 13 then o == Exited(if |values| > 0 then 1 else 0, values) else
      && o.Running? && |o.values| == |values| && At(o.cpu, mapFd, |values|) && o.cpu.pc > cpu.pc
      && if |values| == 0 then o.values == values
         else o.values[0 := Pending(o.cpu, o.values)] == values[0 := Pending(cpu, values)]
  }

  ghost predicate AlwaysAdvances(step: (Cpu, seq<u64>) -> Outcome, mapFd: int) {
    forall c: Cpu, v: seq<u64> {:trigger step(c, v)} :: At(c, mapFd, |v|) ==> Advances(step(c, v), mapFd, c, v)
  }

  lemma RightStepAdvances(o: Outcome, mapFd: int, cpu: Cpu, values: seq<u64>)
    requires At(cpu, mapFd, |values|) && StepsRight(o, mapFd, cpu, values)
    ensures Advances(o, mapFd, cpu, values)
  {
  }

  lemma FilterAdvances(mapFd: int, cpu: Cpu, values: seq<u64>)
    requires At(cpu, mapFd, |values|)
    ensures Advances(Filter(mapFd)(cpu, values), mapFd, cpu, values)
  {
    StepOfProgram(mapFd, cpu, values);
    RightStepAdvances(Step(LoadedProgram(mapFd), mapFd, cpu, values), mapFd, cpu, values);
  }

  lemma {:induction false} RunFrom(step: (Cpu, seq<u64>) -> Outcome, mapFd: int, cpu: Cpu, values: seq<u64>, fuel: nat)
    requires AlwaysAdvances(step, mapFd) && At(cpu, mapFd, |values|) && fuel >= 14 - cpu.pc
    ensures Run(step, cpu, values, fuel)
         == if |values| > 0 then Exited(1, values[0 := Pending(cpu, values)]) else Exited(0, values)
    decreases fuel
  {
    var o := step(cpu, values);
    assert Advances(o, mapFd, cpu, values);
    if cpu.pc != 13 {
      RunFrom(step, mapFd, o.cpu, o.values, fuel - 1);
    }
  }

  /** From entry, for every map, context and stack: the program exits without a fault within fourteen
      instructions, having added one to slot 0 modulo 2^64 and nothing else, with result 1; on NULL it has
      written nothing and its result is 0. */
  lemma {:induction false} ProgramCountsOnePacket(mapFd: int, entry: Cpu, values: seq<u64>, fuel: nat)
    requires Entry(entry) && fuel >= 14
    ensures Run(Filter(mapFd), entry, values, fuel)
         == if |values| > 0 then Exited(1, values[0 := (values[0] + 1) % TWO_TO_THE_64]) else Exited(0, values)
  {
    FilterAlwaysAdvances(mapFd);
    RunFromEntry(Filter(mapFd), mapFd, entry, values, fuel);
  }

  lemma FilterAlwaysAdvances(mapFd: int)
    ensures AlwaysAdvances(Filter(mapFd), mapFd)
  {
    forall c: Cpu, v: seq<u64> | At(c, mapFd, |v|) ensures Advances(Filter(mapFd)(c, v), mapFd, c, v) {
      FilterAdvances(mapFd, c, v);
    }
  }

  lemma RunFromEntry(step: (Cpu, seq<u64>) -> Outcome, mapFd: int, entry: Cpu, values: seq<u64>, fuel: nat)
    requires AlwaysAdvances(step, mapFd) && Entry(entry) && fuel >= 14
    ensures Run(step, entry, values, fuel)
         == if |values| > 0 then Exited(1, values[0 := (values[0] + 1) % TWO_TO_THE_64]) else Exited(0, values)
  {
    RunFrom(step, mapFd, entry, values, fuel);
  }
}
