// The simulator's machine (sim.c): its state, the handlers of the 22
// opcodes, the disk controller with its sector copies, the interrupt
// controller, the clock, and the fetch-decode-execute cycle of `main`.
// Files become values: the instruction image is a sequence of lines, the
// initial memory, disk and interrupt schedule are constructor arguments,
// and the trace files are sequences of records the machine appends to.

module Simulator {
  import opened Words
  import opened Codec
  import opened Isa
  import opened IoBank
  import opened Devices
  import opened Semantics

  /** One line of trace.txt: pc, the 12 instruction digits, both
      immediates and r3..r15 as they were before the instruction ran. */
  datatype TraceRecord = TraceRecord(pc: Int32, word: Word, imm1: int, imm2: int, regs: seq<Int32>)

  /** How a cycle ended: still running, halted, off the end of the
      instruction image, or stopped before an operation whose effect the C
      code leaves undefined (an index outside its array, a shift count
      outside 0..31). */
  datatype Outcome = Running | Halted | EndOfProgram | Undefined

  function Record(pc: Int32, w: Word, regs: seq<Int32>): (r: TraceRecord)
    requires WellFormed(w) && |regs| == CPU_REG_NUM
    ensures r.pc == pc && r.word == w[..WORD_DIGITS] && r.regs == regs[3..]
    ensures r.imm1 == Decode(w).imm1 && r.imm2 == Decode(w).imm2
  {
    var f := Decode(w);
    TraceRecord(pc, w[..WORD_DIGITS], f.imm1, f.imm2, regs[3..])
  }

  class Machine {
    var pc: Int32
    const regs: array<Int32>
    const memory: array<Int32>
    var depth: int
    const io: array<Int32>
    const disk: array2<Int32>
    var diskOffset: int
    const monitor: array2<Int32>
    var maxMonitorOffset: int
    var inIsr: bool
    var irq: bool
    var diskCycles: int
    const schedule: seq<Int32>
    var interruptIndex: nat
    var cont: bool
    var trace: seq<TraceRecord>
    var hwTrace: seq<HwEvent>
    var ledLog: seq<DeviceEvent>
    var displayLog: seq<DeviceEvent>

    ghost predicate Valid()
      reads this
    {
      && regs.Length == CPU_REG_NUM && memory.Length == MEM_DEPTH && io.Length == IO_SLOTS
      && disk.Length0 == DISK_SECTORS && disk.Length1 == DISK_SECTORS
      && monitor.Length0 == PIXELS && monitor.Length1 == PIXELS
      && regs != memory && regs != io && memory != io && disk != monitor
      && 0 <= depth <= MEM_DEPTH + 1
      && 0 <= diskOffset <= DISK_SECTORS * DISK_SECTORS
      && 0 <= maxMonitorOffset < PIXELS * PIXELS
      && 0 <= diskCycles <= DISK_CYCLES
      && interruptIndex <= |schedule|
    }

    /** The state after first_init: memory, disk and schedule loaded,
        everything else zero. */
    constructor (initMemory: seq<Int32>, initDisk: seq<Int32>, irq2Schedule: seq<Int32>)
      requires |initMemory| <= MEM_DEPTH && |initDisk| <= DISK_SECTORS * DISK_SECTORS
      ensures Valid() && fresh(regs) && fresh(memory) && fresh(io) && fresh(disk) && fresh(monitor)
      ensures pc == 0 && cont && !inIsr && !irq && diskCycles == 0
      ensures schedule == irq2Schedule && interruptIndex == 0
      ensures forall k | 0 <= k < CPU_REG_NUM :: regs[k] == 0
      ensures forall k | 0 <= k < IO_SLOTS :: io[k] == 0
      ensures forall a | 0 <= a < MEM_DEPTH :: memory[a] == if a < |initMemory| then initMemory[a] else 0
      ensures depth == |initMemory|
      ensures forall s, k | 0 <= s < DISK_SECTORS && 0 <= k < DISK_SECTORS ::
                disk[s, k] == if s * DISK_SECTORS + k < |initDisk| then initDisk[s * DISK_SECTORS + k] else 0
      ensures diskOffset == |initDisk|
      ensures forall r, c | 0 <= r < PIXELS && 0 <= c < PIXELS :: monitor[r, c] == 0
      ensures maxMonitorOffset == 0
      ensures trace == [] && hwTrace == [] && ledLog == [] && displayLog == []
    {
      pc := 0;
      regs := new Int32[CPU_REG_NUM](_ => 0);
      memory := new Int32[MEM_DEPTH](a => if 0 <= a < |initMemory| then initMemory[a] else 0);
      depth := |initMemory|;
      io := new Int32[IO_SLOTS](_ => 0);
      disk := new Int32[DISK_SECTORS, DISK_SECTORS]((s, k) =>
        if 0 <= s && 0 <= k && s * DISK_SECTORS + k < |initDisk| then initDisk[s * DISK_SECTORS + k] else 0);
      diskOffset := |initDisk|;
      monitor := new Int32[PIXELS, PIXELS]((_, _) => 0);
      maxMonitorOffset := 0;
      inIsr := false;
      irq := false;
      diskCycles := 0;
      schedule := irq2Schedule;
      interruptIndex := 0;
      cont := true;
      trace := [];
      hwTrace := [];
      ledLog := [];
      displayLog := [];
    }

    /** set_register for the selector `sel` of instruction `f`. */
    function Val(sel: int, f: Fields): Int32
      reads regs
      requires regs.Length == CPU_REG_NUM && Encodable(f) && 0 <= sel < CPU_REG_NUM
    {
      Arg(sel, f, regs[..])
    }

    /** Executing `f` now stays inside what the C code defines. */
    predicate Defined(f: Fields)
      reads regs, io
      requires regs.Length == CPU_REG_NUM && io.Length == IO_SLOTS && Encodable(f)
    {
      DefinedOn(f, regs[..], io[..])
    }

    /** The control state as a value. */
    function Ctl(): Control
      reads this, io
    {
      Control(io[..], pc, inIsr, irq, diskCycles, interruptIndex)
    }

    /** The disk as a sequence of sectors. */
    ghost function DiskRows(): (rows: seq<seq<Int32>>)
      reads disk
      requires disk.Length0 == DISK_SECTORS && disk.Length1 == SECTOR_WORDS
      ensures DiskShaped(rows)
      ensures forall s, k | 0 <= s < DISK_SECTORS && 0 <= k < SECTOR_WORDS :: rows[s][k] == disk[s, k]
    {
      seq(DISK_SECTORS, s requires 0 <= s < DISK_SECTORS reads disk =>
        seq(SECTOR_WORDS, k requires 0 <= k < SECTOR_WORDS reads disk => disk[s, k]))
    }

    // -------------------------------------------------------------------
    // Instruction handlers

    /** add .. srl: rd receives the operation on the operands of rs, rt, rm. */
    method Alu(f: Fields)
      requires Valid() && Encodable(f) && IsAlu(f.opcode)
      requires IsShift(f.opcode) ==> 0 <= Val(f.rt, f) < 32
      modifies this`pc, regs
      ensures Valid()
      ensures regs[..] == old(regs[..])[f.rd := AluValue(f.opcode, old(Val(f.rs, f)), old(Val(f.rt, f)), old(Val(f.rm, f)))]
      ensures pc == Wrap32(old(pc) as int + 1)
    {
      var a, b, c := Val(f.rs, f), Val(f.rt, f), Val(f.rm, f);
      regs[f.rd] := AluValue(f.opcode, a, b, c);
      pc := Wrap32(pc as int + 1);
    }

    /** beq .. bge: a taken branch jumps to the low 12 bits of rm's operand. */
    method Branch(f: Fields)
      requires Valid() && Encodable(f) && IsBranch(f.opcode)
      modifies this`pc
      ensures Valid()
      ensures pc == if BranchTaken(f.opcode, Val(f.rs, f), Val(f.rt, f)) then Mask12(Val(f.rm, f))
                    else Wrap32(old(pc) as int + 1)
    {
      if BranchTaken(f.opcode, Val(f.rs, f), Val(f.rt, f)) {
        pc := Mask12(Val(f.rm, f));
      } else {
        pc := Wrap32(pc as int + 1);
      }
    }

    /** jal: link pc + 1 into rd, then jump; the target is read first. */
    method Jal(f: Fields)
      requires Valid() && Encodable(f)
      modifies this`pc, regs
      ensures Valid()
      ensures regs[..] == old(regs[..])[f.rd := Wrap32(old(pc) as int + 1)]
      ensures pc == Mask12(old(Val(f.rm, f)))
    {
      var target := Val(f.rm, f);
      regs[f.rd] := Wrap32(pc as int + 1);
      pc := Mask12(target);
    }

    /** lw: rd receives memory[rs + rt] plus rm's operand. */
    method Lw(f: Fields)
      requires Valid() && Encodable(f) && 0 <= Val(f.rs, f) + Val(f.rt, f) < MEM_DEPTH
      modifies this`pc, regs
      ensures Valid()
      ensures regs[..] == old(regs[..])[f.rd :=
                Wrap32(memory[old(Val(f.rs, f) + Val(f.rt, f))] as int + old(Val(f.rm, f)))]
      ensures pc == Wrap32(old(pc) as int + 1)
    {
      var i := Val(f.rs, f) + Val(f.rt, f);
      regs[f.rd] := Wrap32(memory[i] as int + Val(f.rm, f));
      pc := Wrap32(pc as int + 1);
    }

    /** sw: memory[rs + rt] receives rm's operand plus rd's, and the memory
        watermark covers that word. */
    method Sw(f: Fields)
      requires Valid() && Encodable(f) && 0 <= Val(f.rs, f) + Val(f.rt, f) < MEM_DEPTH
      modifies this`pc, this`depth, memory
      ensures Valid()
      ensures memory[..] == old(memory[..])[Val(f.rs, f) + Val(f.rt, f) := Wrap32(Val(f.rm, f) as int + Val(f.rd, f))]
      ensures depth == Max(old(depth), Val(f.rs, f) + Val(f.rt, f) + 1)
      ensures pc == Wrap32(old(pc) as int + 1)
    {
      var i := Val(f.rs, f) + Val(f.rt, f);
      memory[i] := Wrap32(Val(f.rm, f) as int + Val(f.rd, f));
      if i + 1 > depth {
        depth := i + 1;
      }
      pc := Wrap32(pc as int + 1);
    }

    /** reti: return to irqreturn and leave the interrupt service routine. */
    method Reti()
      requires Valid()
      modifies this`pc, this`inIsr
      ensures Valid()
      ensures pc == io[IRQRETURN] && !inIsr
    {
      pc := io[IRQRETURN];
      inIsr := false;
    }

    /** in: rd receives I/O register rs + rt (0 for monitorcmd), logged as a
        read of that register's current value. */
    method In(f: Fields)
      requires Valid() && Encodable(f) && 0 <= Val(f.rs, f) + Val(f.rt, f) < IO_SLOTS
      modifies this`pc, this`hwTrace, regs
      ensures Valid()
      ensures var reg := old(Val(f.rs, f) + Val(f.rt, f));
              && regs[..] == old(regs[..])[f.rd := if reg == MONITORCMD then 0 else io[reg]]
              && hwTrace == old(hwTrace) + [HwEvent(io[CLKS], Read, reg, IoRegName(reg), io[reg])]
      ensures pc == Wrap32(old(pc) as int + 1)
    {
      var reg := Val(f.rs, f) + Val(f.rt, f);
      regs[f.rd] := if reg == MONITORCMD then 0 else io[reg];
      hwTrace := hwTrace + [HwEvent(io[CLKS], Read, reg, IoRegName(reg), io[reg])];
      pc := Wrap32(pc as int + 1);
    }

    /** out: I/O register rs + rt receives rm's operand, logged with the
        clock as it is after the write (and on leds.txt or display7seg.txt
        for those registers). Writing 1 to monitorcmd draws monitordata at
        monitoraddr and clears the command; writing 1 or 2 to diskcmd marks
        the disk busy and restarts its latency counter. */
    method Out(f: Fields)
      requires Valid() && Encodable(f) && 0 <= Val(f.rs, f) + Val(f.rt, f) < IO_SLOTS
      requires Val(f.rs, f) + Val(f.rt, f) == MONITORCMD && Val(f.rm, f) == 1 ==>
                 0 <= io[MONITORADDR] < PIXELS * PIXELS
      modifies this`pc, this`hwTrace, this`ledLog, this`displayLog, this`maxMonitorOffset, this`diskCycles, io, monitor
      ensures Valid()
      ensures var reg, v := Val(f.rs, f) + Val(f.rt, f), Val(f.rm, f);
              var draw := reg == MONITORCMD && v == 1;
              var arm := reg == DISKCMD && (v == 1 || v == 2);
              var cycle := if reg == CLKS then v else old(io[CLKS]);
              && io[..] == (if draw then old(io[..])[reg := 0]
                            else if arm then old(io[..])[reg := v][DISKSTATUS := 1]
                            else old(io[..])[reg := v])
              && (forall r, c | 0 <= r < PIXELS && 0 <= c < PIXELS ::
                    monitor[r, c] == if draw && r == old(io[MONITORADDR]) / PIXELS && c == old(io[MONITORADDR]) % PIXELS
                                     then old(io[MONITORDATA]) else old(monitor[r, c]))
              && maxMonitorOffset == (if draw then Max(old(maxMonitorOffset), old(io[MONITORADDR])) else old(maxMonitorOffset))
              && diskCycles == (if arm then 0 else old(diskCycles))
              && hwTrace == old(hwTrace) + [HwEvent(cycle, Write, reg, IoRegName(reg), v)]
              && ledLog == old(ledLog) + (if reg == LEDS then [DeviceEvent(cycle, v)] else [])
              && displayLog == old(displayLog) + (if reg == DISPLAY7SEG then [DeviceEvent(cycle, v)] else [])
      ensures pc == Wrap32(old(pc) as int + 1)
    {
      var reg, v := Val(f.rs, f) + Val(f.rt, f), Val(f.rm, f);
      var addr := io[MONITORADDR];
      io[reg] := v;
      var cycle := io[CLKS];
      hwTrace := hwTrace + [HwEvent(cycle, Write, reg, IoRegName(reg), v)];
      if reg == LEDS {
        ledLog := ledLog + [DeviceEvent(cycle, v)];
      }
      if reg == DISPLAY7SEG {
        displayLog := displayLog + [DeviceEvent(cycle, v)];
      }
      if reg == MONITORCMD && v == 1 {
        monitor[addr / PIXELS, addr % PIXELS] := io[MONITORDATA];
        io[reg] := 0;
        maxMonitorOffset := Max(maxMonitorOffset, io[MONITORADDR]);
      }
      if reg == DISKCMD && (v == 1 || v == 2) {
        io[DISKSTATUS] := 1;
        diskCycles := 0;
      }
      pc := Wrap32(pc as int + 1);
    }

    /** halt: stop after the current cycle. */
    method Halt()
      requires Valid()
      modifies this`cont
      ensures Valid() && !cont
    {
      cont := false;
    }

    /** execute_instruction: dispatch on the opcode; any other opcode does
        nothing at all, so pc stays where it is. */
    method Execute(f: Fields)
      requires Valid() && Encodable(f) && Defined(f)
      modifies this`pc, this`cont, this`depth, this`inIsr, this`hwTrace, this`ledLog, this`displayLog,
               this`maxMonitorOffset, this`diskCycles, regs, memory, io, monitor
      ensures Valid()
      ensures cont == (old(cont) && f.opcode != HALT)
      ensures Ctl() == ExecControl(f, old(Ctl()), old(regs[..]))
      ensures regs[..] == ExecRegs(f, old(regs[..]), old(memory[..]), old(io[..]), old(pc))
      ensures memory[..] == ExecMemory(f, old(regs[..]), old(memory[..]))
      ensures depth == ExecDepth(f, old(regs[..]), old(depth))
      ensures hwTrace == old(hwTrace) + IoEvents(f, old(regs[..]), old(io[..]))
      ensures ledLog == old(ledLog) + SlotEvents(f, old(regs[..]), old(io[..]), LEDS)
      ensures displayLog == old(displayLog) + SlotEvents(f, old(regs[..]), old(io[..]), DISPLAY7SEG)
      ensures forall r, c | 0 <= r < PIXELS && 0 <= c < PIXELS ::
                monitor[r, c] == if Draws(f, old(regs[..])) && r == old(io[MONITORADDR]) / PIXELS && c == old(io[MONITORADDR]) % PIXELS
                                 then old(io[MONITORDATA]) else old(monitor[r, c])
      ensures maxMonitorOffset == if Draws(f, old(regs[..])) then Max(old(maxMonitorOffset), old(io[MONITORADDR]))
                                  else old(maxMonitorOffset)
    {
      if f.opcode == IN || f.opcode == OUT {
        ExecuteIo(f);
      } else {
        ExecuteCore(f);
      }
    }

    /** The opcodes other than in and out: they leave the I/O registers,
        the monitor and the logs alone. */
    method ExecuteCore(f: Fields)
      requires Valid() && Encodable(f) && Defined(f) && f.opcode != IN && f.opcode != OUT
      modifies this`pc, this`cont, this`depth, this`inIsr, regs, memory
      ensures Valid()
      ensures cont == (old(cont) && f.opcode != HALT)
      ensures Ctl() == ExecControl(f, old(Ctl()), old(regs[..]))
      ensures regs[..] == ExecRegs(f, old(regs[..]), old(memory[..]), old(io[..]), old(pc))
      ensures memory[..] == ExecMemory(f, old(regs[..]), old(memory[..]))
      ensures depth == ExecDepth(f, old(regs[..]), old(depth))
    {
      var op := f.opcode;
      if IsAlu(op) {
        Alu(f);
      } else if IsBranch(op) {
        Branch(f);
      } else if op == JAL {
        Jal(f);
      } else if op == LW {
        Lw(f);
      } else if op == SW {
        Sw(f);
      } else if op == RETI {
        Reti();
      } else if op == HALT {
        Halt();
      }
    }

    /** in and out: the registers of the I/O bank, the monitor and the logs. */
    method ExecuteIo(f: Fields)
      requires Valid() && Encodable(f) && Defined(f) && (f.opcode == IN || f.opcode == OUT)
      modifies this`pc, this`hwTrace, this`ledLog, this`displayLog, this`maxMonitorOffset, this`diskCycles,
               regs, io, monitor
      ensures Valid()
      ensures Ctl() == ExecControl(f, old(Ctl()), old(regs[..]))
      ensures regs[..] == ExecRegs(f, old(regs[..]), old(memory[..]), old(io[..]), old(pc))
      ensures hwTrace == old(hwTrace) + IoEvents(f, old(regs[..]), old(io[..]))
      ensures ledLog == old(ledLog) + SlotEvents(f, old(regs[..]), old(io[..]), LEDS)
      ensures displayLog == old(displayLog) + SlotEvents(f, old(regs[..]), old(io[..]), DISPLAY7SEG)
      ensures forall r, c | 0 <= r < PIXELS && 0 <= c < PIXELS ::
                monitor[r, c] == if Draws(f, old(regs[..])) && r == old(io[MONITORADDR]) / PIXELS && c == old(io[MONITORADDR]) % PIXELS
                                 then old(io[MONITORDATA]) else old(monitor[r, c])
      ensures maxMonitorOffset == if Draws(f, old(regs[..])) then Max(old(maxMonitorOffset), old(io[MONITORADDR]))
                                  else old(maxMonitorOffset)
    {
      if f.opcode == IN {
        In(f);
      } else {
        Out(f);
      }
    }

    // -------------------------------------------------------------------
    // Disk controller

    /** A transfer about to fire names a sector of the disk and a buffer
        that fits in memory. */
    predicate DiskDefined()
      reads this, io
      requires io.Length == IO_SLOTS
    {
      diskCycles == DISK_CYCLES && (io[DISKCMD] == 1 || io[DISKCMD] == 2) ==>
        0 <= io[DISKSECTOR] < DISK_SECTORS && 0 <= io[DISKBUFFER] && io[DISKBUFFER] + SECTOR_WORDS <= MEM_DEPTH
    }

    /** read_sector: copy sector disksector into memory at diskbuffer. */
    method ReadSector()
      requires Valid()
      requires 0 <= io[DISKSECTOR] < DISK_SECTORS && 0 <= io[DISKBUFFER] && io[DISKBUFFER] + SECTOR_WORDS <= MEM_DEPTH
      modifies this`depth, memory
      ensures Valid()
      ensures forall a | 0 <= a < MEM_DEPTH ::
                memory[a] == if io[DISKBUFFER] <= a < io[DISKBUFFER] + SECTOR_WORDS
                             then disk[io[DISKSECTOR], a - io[DISKBUFFER]] else old(memory[a])
      ensures depth == ReadSectorDepth(old(depth), io[DISKBUFFER])
    {
      var sector, buffer := io[DISKSECTOR], io[DISKBUFFER];
      for i := 0 to SECTOR_WORDS
        invariant depth == old(depth)
        invariant forall a | 0 <= a < MEM_DEPTH ::
                    memory[a] == if buffer <= a < buffer + i then disk[sector, a - buffer] else old(memory[a])
      {
        memory[buffer + i] := disk[sector, i];
      }
      depth := ReadSectorDepth(depth, buffer);
    }

    /** write_sector: copy memory at diskbuffer into sector disksector,
        moving the disk watermark word by word. */
    method WriteSector()
      requires Valid()
      requires 0 <= io[DISKSECTOR] < DISK_SECTORS && 0 <= io[DISKBUFFER] && io[DISKBUFFER] + SECTOR_WORDS <= MEM_DEPTH
      modifies this`diskOffset, disk
      ensures Valid()
      ensures forall s, k | 0 <= s < DISK_SECTORS && 0 <= k < DISK_SECTORS ::
                disk[s, k] == if s == io[DISKSECTOR] then memory[io[DISKBUFFER] + k] else old(disk[s, k])
      ensures diskOffset == SectorWriteOffset(old(diskOffset), io[DISKSECTOR])
    {
      var sector, buffer := io[DISKSECTOR], io[DISKBUFFER];
      for i := 0 to SECTOR_WORDS
        invariant forall s, k | 0 <= s < DISK_SECTORS && 0 <= k < DISK_SECTORS ::
                    disk[s, k] == if s == sector && k < i then memory[buffer + k] else old(disk[s, k])
        invariant diskOffset == SectorOffsetAfter(old(diskOffset), sector * SECTOR_WORDS, i)
      {
        disk[sector, i] := memory[buffer + i];
        SectorOffsetStep(old(diskOffset), sector * SECTOR_WORDS, i);
        var current := sector * SECTOR_WORDS + i;
        if current > diskOffset {
          diskOffset := current + 1;
        }
      }
      SectorWriteOffsetBounds(old(diskOffset), sector);
    }

    /** handle_disk: count one busy cycle, or, on the call that finds the
        counter at 1024, perform the command, reset the counter, clear
        diskcmd and diskstatus and raise irq1status. */
    method HandleDisk()
      requires Valid() && DiskDefined()
      modifies this`diskCycles, this`depth, this`diskOffset, io, memory, disk
      ensures Valid()
      ensures old(diskCycles) != DISK_CYCLES ==>
                && diskCycles == old(diskCycles) + 1
                && unchanged(io, memory, disk) && depth == old(depth) && diskOffset == old(diskOffset)
      ensures old(diskCycles) == DISK_CYCLES ==>
                && diskCycles == 0
                && io[..] == old(io[..])[DISKCMD := 0][DISKSTATUS := 0][IRQ1STATUS := 1]
      ensures var cmd, sector, buffer := old(io[DISKCMD]), old(io[DISKSECTOR]), old(io[DISKBUFFER]);
              old(diskCycles) == DISK_CYCLES && cmd == 1 ==>
                && unchanged(disk) && diskOffset == old(diskOffset)
                && depth == ReadSectorDepth(old(depth), buffer)
                && forall a | 0 <= a < MEM_DEPTH ::
                     memory[a] == if buffer <= a < buffer + SECTOR_WORDS then disk[sector, a - buffer] else old(memory[a])
      ensures var cmd, sector, buffer := old(io[DISKCMD]), old(io[DISKSECTOR]), old(io[DISKBUFFER]);
              old(diskCycles) == DISK_CYCLES && cmd == 2 ==>
                && unchanged(memory) && depth == old(depth)
                && diskOffset == SectorWriteOffset(old(diskOffset), sector)
                && forall s, k | 0 <= s < DISK_SECTORS && 0 <= k < DISK_SECTORS ::
                     disk[s, k] == if s == sector then memory[buffer + k] else old(disk[s, k])
      ensures old(diskCycles) == DISK_CYCLES && old(io[DISKCMD]) != 1 && old(io[DISKCMD]) != 2 ==>
                unchanged(memory, disk) && depth == old(depth) && diskOffset == old(diskOffset)
    {
      if diskCycles == DISK_CYCLES {
        diskCycles := 0;
        if io[DISKCMD] == 1 {
          ReadSector();
        } else if io[DISKCMD] == 2 {
          WriteSector();
        }
        io[DISKCMD] := 0;
        io[DISKSTATUS] := 0;
        io[IRQ1STATUS] := 1;
      } else {
        diskCycles := diskCycles + 1;
      }
    }

    // -------------------------------------------------------------------
    // Interrupts and clock

    /** update_timer, on the I/O registers in place. */
    method UpdateTimer()
      requires Valid()
      modifies io
      ensures io[..] == TimerTick(old(io[..]))
    {
      if Bit0(io[TIMERENABLE]) == 1 {
        io[TIMERCURRENT] := Wrap32(io[TIMERCURRENT] as int + 1);
      }
      if io[TIMERCURRENT] == io[TIMERMAX] {
        io[TIMERCURRENT] := 0;
        io[IRQ0STATUS] := 1;
      }
    }

    /** check_irq2in, on the I/O registers and the schedule cursor. */
    method CheckIrq2In()
      requires Valid()
      modifies io, this`interruptIndex
      ensures Valid()
      ensures (io[..], interruptIndex) == Irq2Check(old(io[..]), schedule, old(interruptIndex))
    {
      if interruptIndex < |schedule| && io[CLKS] == schedule[interruptIndex] {
        io[IRQ2STATUS] := 1;
        interruptIndex := interruptIndex + 1;
      }
    }

    /** check_interrupts: tick the timer, check the schedule, then compute
        the combined interrupt line. */
    method CheckInterrupts()
      requires Valid()
      modifies io, this`interruptIndex, this`irq
      ensures Valid()
      ensures (io[..], interruptIndex) == InterruptCheck(old(io[..]), schedule, old(interruptIndex))
      ensures irq == IrqLine(io[..])
    {
      UpdateTimer();
      CheckIrq2In();
      irq := IrqLine(io[..]);
    }

    /** handle_interrupts: when the line is up and no routine is running,
        save pc in irqreturn, jump to irqhandler and enter the routine. */
    method HandleInterrupts() returns (taken: bool)
      requires Valid()
      modifies io, this`pc, this`inIsr, this`irq, this`interruptIndex
      ensures Valid()
      ensures var (io1, index1) := InterruptCheck(old(io[..]), schedule, old(interruptIndex));
              && interruptIndex == index1 && irq == IrqLine(io1)
              && taken == (IrqLine(io1) && !old(inIsr))
              && io[..] == (if taken then io1[IRQRETURN := old(pc)] else io1)
              && pc == (if taken then io1[IRQHANDLER] else old(pc))
              && inIsr == (old(inIsr) || taken)
    {
      CheckInterrupts();
      if irq && !inIsr {
        io[IRQRETURN] := pc;
        pc := io[IRQHANDLER];
        inIsr := true;
        return true;
      }
      return false;
    }

    /** handle_clock_cycles, on the clks register. */
    method HandleClockCycles()
      requires Valid()
      modifies io
      ensures io[..] == old(io[..])[CLKS := ClockTick(old(io[CLKS]))]
    {
      var c := Wrap32(io[CLKS] as int + 1);
      io[CLKS] := if c == -1 then 0 else c;
    }

    // -------------------------------------------------------------------
    // The cycle and the run

    /** One iteration of main's loop: fetch the word at pc (stopping when pc
        is outside the image), record the trace line, execute, tick the
        disk while diskstatus is set, handle interrupts, tick the clock. */
    method Step(program: seq<Word>) returns (outcome: Outcome)
      requires Valid() && cont
      requires forall i | 0 <= i < |program| :: WellFormed(program[i])
      modifies this, regs, memory, io, disk, monitor
      ensures Valid()
      ensures outcome == EndOfProgram <==> !(0 <= old(pc) < |program|)
      ensures outcome == EndOfProgram ==> unchanged(this, regs, memory, io, disk, monitor)
      ensures outcome != EndOfProgram ==>
                0 <= old(pc) < |program| && trace == old(trace) + [Record(old(pc), program[old(pc)], old(regs[..]))]
      ensures outcome != EndOfProgram ==>
                var f := Decode(program[old(pc)]);
                && (outcome != Undefined <==>
                      DefinedOn(f, old(regs[..]), old(io[..])) && TickDefined(ExecControl(f, old(Ctl()), old(regs[..]))))
                && (outcome != Undefined ==>
                      var e := ExecControl(f, old(Ctl()), old(regs[..]));
                      var mem := ExecMemory(f, old(regs[..]), old(memory[..]));
                      && Ctl() == CycleControl(f, old(Ctl()), old(regs[..]), schedule)
                      && regs[..] == ExecRegs(f, old(regs[..]), old(memory[..]), old(io[..]), old(pc))
                      && hwTrace == old(hwTrace) + IoEvents(f, old(regs[..]), old(io[..]))
                      && ledLog == old(ledLog) + SlotEvents(f, old(regs[..]), old(io[..]), LEDS)
                      && displayLog == old(displayLog) + SlotEvents(f, old(regs[..]), old(io[..]), DISPLAY7SEG)
                      && (outcome == Halted <==> f.opcode == HALT)
                      && memory[..] == DiskMemory(e, mem, old(DiskRows()))
                      && DiskRows() == DiskImage(e, mem, old(DiskRows()))
                      && depth == DiskDepth(e, ExecDepth(f, old(regs[..]), old(depth)))
                      && diskOffset == DiskOffset(e, old(diskOffset))
                      && (forall r, c | 0 <= r < PIXELS && 0 <= c < PIXELS ::
                            monitor[r, c] == if Draws(f, old(regs[..])) && r == old(io[MONITORADDR]) / PIXELS && c == old(io[MONITORADDR]) % PIXELS
                                             then old(io[MONITORDATA]) else old(monitor[r, c]))
                      && maxMonitorOffset == if Draws(f, old(regs[..])) then Max(old(maxMonitorOffset), old(io[MONITORADDR]))
                                             else old(maxMonitorOffset))
      ensures outcome == Running ==> cont
      ensures outcome == Halted ==> !cont
      ensures old(hwTrace) <= hwTrace && old(ledLog) <= ledLog && old(displayLog) <= displayLog
      ensures depth >= old(depth) && diskOffset >= old(diskOffset) && maxMonitorOffset >= old(maxMonitorOffset)
      ensures interruptIndex == old(interruptIndex) || interruptIndex == old(interruptIndex) + 1
    {
      if !(0 <= pc < |program| as int) {
        return EndOfProgram;
      }
      var word := program[pc];
      trace := trace + [Record(pc, word, regs[..])];
      outcome := Cycle(Decode(word));
    }

    /** The rest of the cycle once the instruction is decoded and traced:
        execute, then tick the devices. An instruction whose effect C leaves
        undefined stops the machine before it runs. */
    method Cycle(f: Fields) returns (outcome: Outcome)
      requires Valid() && cont && Encodable(f)
      modifies this, regs, memory, io, disk, monitor
      ensures Valid() && trace == old(trace)
      ensures outcome != EndOfProgram
      ensures outcome != Undefined <==>
                DefinedOn(f, old(regs[..]), old(io[..])) && TickDefined(ExecControl(f, old(Ctl()), old(regs[..])))
      ensures !DefinedOn(f, old(regs[..]), old(io[..])) ==> unchanged(this, regs, memory, io, disk, monitor)
      ensures outcome != Undefined ==>
                var e := ExecControl(f, old(Ctl()), old(regs[..]));
                var mem := ExecMemory(f, old(regs[..]), old(memory[..]));
                && Ctl() == CycleControl(f, old(Ctl()), old(regs[..]), schedule)
                && regs[..] == ExecRegs(f, old(regs[..]), old(memory[..]), old(io[..]), old(pc))
                && hwTrace == old(hwTrace) + IoEvents(f, old(regs[..]), old(io[..]))
                && ledLog == old(ledLog) + SlotEvents(f, old(regs[..]), old(io[..]), LEDS)
                && displayLog == old(displayLog) + SlotEvents(f, old(regs[..]), old(io[..]), DISPLAY7SEG)
                && (outcome == Halted <==> f.opcode == HALT)
                && memory[..] == DiskMemory(e, mem, old(DiskRows()))
                && DiskRows() == DiskImage(e, mem, old(DiskRows()))
                && depth == DiskDepth(e, ExecDepth(f, old(regs[..]), old(depth)))
                && diskOffset == DiskOffset(e, old(diskOffset))
                && (forall r, c | 0 <= r < PIXELS && 0 <= c < PIXELS ::
                      monitor[r, c] == if Draws(f, old(regs[..])) && r == old(io[MONITORADDR]) / PIXELS && c == old(io[MONITORADDR]) % PIXELS
                                       then old(io[MONITORDATA]) else old(monitor[r, c]))
                && maxMonitorOffset == if Draws(f, old(regs[..])) then Max(old(maxMonitorOffset), old(io[MONITORADDR]))
                                       else old(maxMonitorOffset)
      ensures outcome == Running ==> cont
      ensures outcome == Halted ==> !cont
      ensures old(hwTrace) <= hwTrace && old(ledLog) <= ledLog && old(displayLog) <= displayLog
      ensures depth >= old(depth) && diskOffset >= old(diskOffset) && maxMonitorOffset >= old(maxMonitorOffset)
      ensures interruptIndex == old(interruptIndex) || interruptIndex == old(interruptIndex) + 1
    {
      if !Defined(f) {
        return Undefined;
      }
      Execute(f);
      outcome := EndCycle(f, old(Ctl()), old(regs[..]), old(memory[..]), old(depth));
    }

    /** The device half of a cycle: f has just executed from control state
        c0, registers regs0, memory memory0 and watermark depth0 (ghost
        copies of the state before the cycle); tick the devices and say what
        the whole cycle did to the control state and the stores. */
    method EndCycle(f: Fields, ghost c0: Control, ghost regs0: seq<Int32>, ghost memory0: seq<Int32>, ghost depth0: int)
        returns (outcome: Outcome)
      requires Valid() && Encodable(f) && |c0.io| == IO_SLOTS && |regs0| == CPU_REG_NUM && |memory0| == MEM_DEPTH
      requires 0 <= c0.diskCycles <= DISK_CYCLES && c0.index <= |schedule|
      requires DefinedOn(f, regs0, c0.io)
      requires Ctl() == ExecControl(f, c0, regs0) && (cont <==> f.opcode != HALT)
      requires memory[..] == ExecMemory(f, regs0, memory0) && depth == ExecDepth(f, regs0, depth0)
      modifies this`diskCycles, this`depth, this`diskOffset, this`pc, this`inIsr, this`irq, this`interruptIndex,
               io, memory, disk
      ensures Valid()
      ensures outcome != EndOfProgram
      ensures outcome != Undefined <==> TickDefined(ExecControl(f, c0, regs0))
      ensures outcome != Undefined ==>
                var e := ExecControl(f, c0, regs0);
                var mem := ExecMemory(f, regs0, memory0);
                && Ctl() == CycleControl(f, c0, regs0, schedule)
                && (outcome == Halted <==> f.opcode == HALT)
                && memory[..] == DiskMemory(e, mem, old(DiskRows()))
                && DiskRows() == DiskImage(e, mem, old(DiskRows()))
                && depth == DiskDepth(e, ExecDepth(f, regs0, depth0))
                && diskOffset == DiskOffset(e, old(diskOffset))
      ensures outcome == Running ==> cont
      ensures outcome == Halted ==> !cont
      ensures depth >= old(depth) && diskOffset >= old(diskOffset)
      ensures interruptIndex == old(interruptIndex) || interruptIndex == old(interruptIndex) + 1
    {
      var defined := TickDevices();
      outcome := if !defined then Undefined else if cont then Running else Halted;
    }


    /** The device part of a cycle: the disk while diskstatus is set, then
        the interrupt controller, then the clock. Fails, changing nothing,
        when the disk is about to transfer outside the disk or memory. */
    method TickDevices() returns (defined: bool)
      requires Valid()
      modifies this`diskCycles, this`depth, this`diskOffset, this`pc, this`inIsr, this`irq, this`interruptIndex,
               io, memory, disk
      ensures Valid()
      ensures defined == TickDefined(old(Ctl()))
      ensures !defined ==> unchanged(this, io, memory, disk)
      ensures defined ==> Ctl() == DeviceTick(old(Ctl()), schedule)
      ensures !Transfers(old(Ctl())) ==> unchanged(memory, disk) && depth == old(depth) && diskOffset == old(diskOffset)
      ensures defined ==>
                && memory[..] == DiskMemory(old(Ctl()), old(memory[..]), old(DiskRows()))
                && DiskRows() == DiskImage(old(Ctl()), old(memory[..]), old(DiskRows()))
                && depth == DiskDepth(old(Ctl()), old(depth))
                && diskOffset == DiskOffset(old(Ctl()), old(diskOffset))
      ensures depth >= old(depth) && diskOffset >= old(diskOffset)
      ensures interruptIndex == old(interruptIndex) || interruptIndex == old(interruptIndex) + 1
    {
      defined := TickDisk();
      if defined {
        TickInterrupts();
      }
    }

    /** The disk step of TickDevices. */
    method TickDisk() returns (defined: bool)
      requires Valid()
      modifies this`diskCycles, this`depth, this`diskOffset, io, memory, disk
      ensures Valid()
      ensures defined == TickDefined(old(Ctl()))
      ensures !defined ==> unchanged(this, io, memory, disk)
      ensures defined ==> Ctl() == DiskPhase(old(Ctl()))
      ensures !Transfers(old(Ctl())) ==> unchanged(memory, disk) && depth == old(depth) && diskOffset == old(diskOffset)
      ensures defined ==>
                && memory[..] == DiskMemory(old(Ctl()), old(memory[..]), old(DiskRows()))
                && DiskRows() == DiskImage(old(Ctl()), old(memory[..]), old(DiskRows()))
                && depth == DiskDepth(old(Ctl()), old(depth))
                && diskOffset == DiskOffset(old(Ctl()), old(diskOffset))
      ensures depth >= old(depth) && diskOffset >= old(diskOffset)
    {
      ghost var c, mem, rows := Ctl(), memory[..], DiskRows();
      if io[DISKSTATUS] != 0 {
        if !DiskDefined() {
          return false;
        }
        HandleDisk();
      }
      if ReadsSector(c) {
        var buffer, r := c.io[DISKBUFFER], DiskMemory(c, mem, rows);
        forall a | 0 <= a < MEM_DEPTH
          ensures memory[a] == r[a]
        {
          if buffer <= a < buffer + SECTOR_WORDS {
            assert r[a] == r[buffer..buffer + SECTOR_WORDS][a - buffer];
          }
        }
      }
      if WritesSector(c) {
        var sector, image := c.io[DISKSECTOR], DiskImage(c, mem, rows);
        forall s | 0 <= s < DISK_SECTORS
          ensures DiskRows()[s] == image[s]
        {
        }
      }
      return true;
    }

    /** The interrupt and clock steps of TickDevices. */
    method TickInterrupts()
      requires Valid()
      modifies this`pc, this`inIsr, this`irq, this`interruptIndex, io
      ensures Valid()
      ensures Ctl() == InterruptPhase(old(Ctl()), schedule)
    {
      var _ := HandleInterrupts();
      HandleClockCycles();
    }

    /** main's loop, for at most `fuel` cycles, and the figure it reports in
        cycles.txt. `steps` counts the calls of Step; the one that finds pc
        off the image writes no trace line. */
    method Run(program: seq<Word>, fuel: nat) returns (outcome: Outcome, steps: nat, cycles: Int32)
      requires Valid() && cont
      requires forall i | 0 <= i < |program| :: WellFormed(program[i])
      modifies this, regs, memory, io, disk, monitor
      ensures Valid()
      ensures steps <= fuel && (outcome == Running ==> steps == fuel && cont)
      ensures outcome != Running ==> steps >= 1
      ensures outcome == Halted ==> !cont
      ensures old(trace) <= trace && |trace| == |old(trace)| + (if outcome == EndOfProgram then steps - 1 else steps)
      ensures old(hwTrace) <= hwTrace && old(ledLog) <= ledLog && old(displayLog) <= displayLog
      ensures depth >= old(depth) && diskOffset >= old(diskOffset) && maxMonitorOffset >= old(maxMonitorOffset)
      ensures old(interruptIndex) <= interruptIndex <= old(interruptIndex) + steps
      ensures cycles == CyclesReported(io[CLKS], io[DISKSTATUS], diskCycles)
    {
      outcome := Running;
      steps := 0;
      while steps < fuel && outcome == Running
        invariant Valid() && steps <= fuel
        invariant outcome == Running ==> cont
        invariant outcome != Running ==> steps >= 1
        invariant outcome == Halted ==> !cont
        invariant old(trace) <= trace && |trace| == |old(trace)| + (if outcome == EndOfProgram then steps - 1 else steps)
        invariant old(hwTrace) <= hwTrace && old(ledLog) <= ledLog && old(displayLog) <= displayLog
        invariant depth >= old(depth) && diskOffset >= old(diskOffset) && maxMonitorOffset >= old(maxMonitorOffset)
        invariant old(interruptIndex) <= interruptIndex <= old(interruptIndex) + steps
        decreases fuel - steps
      {
        outcome := Step(program);
        steps := steps + 1;
      }
      cycles := CyclesReported(io[CLKS], io[DISKSTATUS], diskCycles);
    }
  }
}
