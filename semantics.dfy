// The meaning of one simulator cycle, as functions of values: what an
// instruction does to the register file, the memory, the I/O registers and
// the control state, what it logs, and what the disk, the interrupt
// controller and the clock do after it in the same cycle. The Machine class
// (simulator.dfy) is proved to update its arrays and fields exactly as these
// functions say; the lemmas here state what the cycle promises.

module Semantics {
  import opened Words
  import opened Codec
  import opened Isa
  import opened IoBank
  import opened Devices

  const MEM_DEPTH: nat := 4096
  const DISK_SECTORS: nat := 128
  const PIXELS: nat := 256

  datatype Access = Read | Write

  /** One line of hwregtrace.txt. */
  datatype HwEvent = HwEvent(cycle: Int32, action: Access, reg: int, name: string, data: Int32)

  /** One line of leds.txt or display7seg.txt. */
  datatype DeviceEvent = DeviceEvent(cycle: Int32, value: Int32)

  /** The state a cycle's control flow reads and writes: the I/O registers,
      pc, whether an interrupt routine is running, the interrupt line, the
      disk latency counter and the cursor into the irq2 schedule. */
  datatype Control = Control(io: seq<Int32>, pc: Int32, inIsr: bool, irq: bool, diskCycles: int, index: nat)

  predicate WellShaped(c: Control, schedule: seq<Int32>) {
    |c.io| == IO_SLOTS && 0 <= c.diskCycles <= DISK_CYCLES && c.index <= |schedule|
  }

  /** pc + 1 on a C int. */
  function Next(pc: Int32): Int32 {
    Wrap32(pc as int + 1)
  }

  /** set_register applied to the selector `sel` of `f`. */
  function Arg(sel: int, f: Fields, regs: seq<Int32>): Int32
    requires |regs| == CPU_REG_NUM && Encodable(f) && 0 <= sel < CPU_REG_NUM
  {
    Operand(sel, f.imm1, f.imm2, regs)
  }

  /** rs + rt: the memory address of lw and sw, the I/O register of in and out. */
  function Index(f: Fields, regs: seq<Int32>): int
    requires |regs| == CPU_REG_NUM && Encodable(f)
  {
    Arg(f.rs, f, regs) + Arg(f.rt, f, regs)
  }

  /** The conditions under which executing `f` stays inside what the C code
      defines: shift counts 0..31, memory and I/O indices inside their
      arrays, and a monitor address inside the frame when a pixel is drawn. */
  predicate DefinedOn(f: Fields, regs: seq<Int32>, io: seq<Int32>)
    requires |regs| == CPU_REG_NUM && |io| == IO_SLOTS && Encodable(f)
    ensures IsBranch(f.opcode) || f.opcode == JAL || f.opcode == RETI || f.opcode == HALT ==> DefinedOn(f, regs, io)
  {
    && (IsShift(f.opcode) ==> 0 <= Arg(f.rt, f, regs) < 32)
    && (f.opcode == LW || f.opcode == SW ==> 0 <= Index(f, regs) < MEM_DEPTH)
    && (f.opcode == IN || f.opcode == OUT ==> 0 <= Index(f, regs) < IO_SLOTS)
    && (f.opcode == OUT && Index(f, regs) == MONITORCMD && Arg(f.rm, f, regs) == 1 ==>
          0 <= io[MONITORADDR] < PIXELS * PIXELS)
  }

  /** `out` writing 1 to monitorcmd: a pixel is drawn. */
  predicate Draws(f: Fields, regs: seq<Int32>)
    requires |regs| == CPU_REG_NUM && Encodable(f)
    ensures Draws(f, regs) ==> !Arms(f, regs)
  {
    f.opcode == OUT && Index(f, regs) == MONITORCMD && Arg(f.rm, f, regs) == 1
  }

  /** `out` writing 1 (read) or 2 (write) to diskcmd: the disk is armed. */
  predicate Arms(f: Fields, regs: seq<Int32>)
    requires |regs| == CPU_REG_NUM && Encodable(f)
  {
    f.opcode == OUT && Index(f, regs) == DISKCMD && (Arg(f.rm, f, regs) == 1 || Arg(f.rm, f, regs) == 2)
  }

  /** The I/O registers after `f`: only `out` writes them. A drawn pixel
      leaves monitorcmd at 0; an armed disk reports busy. */
  function ExecIo(f: Fields, regs: seq<Int32>, io: seq<Int32>): (r: seq<Int32>)
    requires |regs| == CPU_REG_NUM && |io| == IO_SLOTS && Encodable(f) && DefinedOn(f, regs, io)
    ensures |r| == IO_SLOTS
    ensures f.opcode != OUT ==> r == io
    ensures f.opcode == OUT ==> forall k | 0 <= k < IO_SLOTS && k != Index(f, regs) && k != DISKSTATUS :: r[k] == io[k]
    ensures Arms(f, regs) ==> r[DISKCMD] == Arg(f.rm, f, regs) && r[DISKSTATUS] == 1
  {
    if f.opcode != OUT then io
    else
      var reg, v := Index(f, regs), Arg(f.rm, f, regs);
      if Draws(f, regs) then io[reg := 0]
      else if Arms(f, regs) then io[reg := v][DISKSTATUS := 1]
      else io[reg := v]
  }

  /** The control state after executing `f` (before the devices tick):
      straight-line opcodes step pc, branches and jal jump to the low 12 bits
      of rm's operand, reti returns to irqreturn and leaves the routine, out
      writes an I/O register and restarts the disk counter when it arms the
      disk, halt and unknown opcodes leave everything as it was. */
  function ExecControl(f: Fields, c: Control, regs: seq<Int32>): (r: Control)
    requires |regs| == CPU_REG_NUM && |c.io| == IO_SLOTS && Encodable(f) && DefinedOn(f, regs, c.io)
    ensures r.irq == c.irq && r.index == c.index && |r.io| == IO_SLOTS
    ensures 0 <= c.diskCycles <= DISK_CYCLES ==> 0 <= r.diskCycles <= DISK_CYCLES
    ensures r.inIsr == (c.inIsr && f.opcode != RETI)
    ensures f.opcode != OUT ==> r.io == c.io && r.diskCycles == c.diskCycles
    ensures r.pc == Next(c.pc) || 0 <= r.pc < 4096 || r.pc == c.io[IRQRETURN] || r == c
  {
    var op := f.opcode;
    var a, b, m := Arg(f.rs, f, regs), Arg(f.rt, f, regs), Arg(f.rm, f, regs);
    if IsAlu(op) || op == LW || op == SW || op == IN then c.(pc := Next(c.pc))
    else if IsBranch(op) then c.(pc := if BranchTaken(op, a, b) then Mask12(m) else Next(c.pc))
    else if op == JAL then c.(pc := Mask12(m))
    else if op == RETI then c.(pc := c.io[IRQRETURN], inIsr := false)
    else if op == OUT then
      c.(io := ExecIo(f, regs, c.io), pc := Next(c.pc), diskCycles := if Arms(f, regs) then 0 else c.diskCycles)
    else c
  }

  /** The register file after `f`: the ALU opcodes, jal (the link), lw and
      in (0 for monitorcmd) write rd; nothing else writes a register. */
  function ExecRegs(f: Fields, regs: seq<Int32>, memory: seq<Int32>, io: seq<Int32>, pc: Int32): (r: seq<Int32>)
    requires |regs| == CPU_REG_NUM && |memory| == MEM_DEPTH && |io| == IO_SLOTS
    requires Encodable(f) && DefinedOn(f, regs, io)
    ensures |r| == CPU_REG_NUM
    ensures forall k | 0 <= k < CPU_REG_NUM && k != f.rd :: r[k] == regs[k]
  {
    var op := f.opcode;
    var a, b, m := Arg(f.rs, f, regs), Arg(f.rt, f, regs), Arg(f.rm, f, regs);
    if IsAlu(op) then regs[f.rd := AluValue(op, a, b, m)]
    else if op == JAL then regs[f.rd := Next(pc)]
    else if op == LW then regs[f.rd := Wrap32(memory[a + b] as int + m)]
    else if op == IN then regs[f.rd := if a + b == MONITORCMD then 0 else io[a + b]]
    else regs
  }

  /** The memory after `f`: sw stores rm's operand plus rd's at rs + rt. */
  function ExecMemory(f: Fields, regs: seq<Int32>, memory: seq<Int32>): (r: seq<Int32>)
    requires |regs| == CPU_REG_NUM && |memory| == MEM_DEPTH && Encodable(f)
    requires f.opcode == SW ==> 0 <= Index(f, regs) < MEM_DEPTH
    ensures |r| == MEM_DEPTH
    ensures forall a | 0 <= a < MEM_DEPTH && (f.opcode != SW || a != Index(f, regs)) :: r[a] == memory[a]
    ensures f.opcode == SW ==>
              (r[Index(f, regs)] - (Arg(f.rm, f, regs) + Arg(f.rd, f, regs))) % TWO32 == 0
  {
    if f.opcode == SW then memory[Index(f, regs) := Wrap32(Arg(f.rm, f, regs) as int + Arg(f.rd, f, regs))]
    else memory
  }

  /** The memory watermark after `f`: a store extends it past its address. */
  function ExecDepth(f: Fields, regs: seq<Int32>, depth: int): (r: int)
    requires |regs| == CPU_REG_NUM && Encodable(f)
    ensures r >= depth
    ensures f.opcode == SW ==> r > Index(f, regs) && (r == depth || r == Index(f, regs) + 1)
    ensures f.opcode != SW ==> r == depth
  {
    if f.opcode == SW then Max(depth, Index(f, regs) + 1) else depth
  }

  /** The clock value `out` logs: the clock after the write. */
  function OutCycle(f: Fields, regs: seq<Int32>, io: seq<Int32>): Int32
    requires |regs| == CPU_REG_NUM && |io| == IO_SLOTS && Encodable(f)
  {
    if Index(f, regs) == CLKS then Arg(f.rm, f, regs) else io[CLKS]
  }

  /** The hwregtrace.txt lines `f` adds: one read for in, one write for out. */
  function IoEvents(f: Fields, regs: seq<Int32>, io: seq<Int32>): (r: seq<HwEvent>)
    requires |regs| == CPU_REG_NUM && |io| == IO_SLOTS && Encodable(f) && DefinedOn(f, regs, io)
    ensures |r| == (if f.opcode == IN || f.opcode == OUT then 1 else 0)
  {
    var reg := Index(f, regs);
    if f.opcode == IN then [HwEvent(io[CLKS], Read, reg, IoRegName(reg), io[reg])]
    else if f.opcode == OUT then [HwEvent(OutCycle(f, regs, io), Write, reg, IoRegName(reg), Arg(f.rm, f, regs))]
    else []
  }

  /** The lines `f` adds to the log of I/O register `slot` (leds or
      display7seg): one for an out to that register. */
  function SlotEvents(f: Fields, regs: seq<Int32>, io: seq<Int32>, slot: int): (r: seq<DeviceEvent>)
    requires |regs| == CPU_REG_NUM && |io| == IO_SLOTS && Encodable(f)
    ensures |r| <= 1 && (r != [] <==> f.opcode == OUT && Index(f, regs) == slot)
  {
    if f.opcode == OUT && Index(f, regs) == slot then [DeviceEvent(OutCycle(f, regs, io), Arg(f.rm, f, regs))]
    else []
  }

  /** The disk is about to perform its command this cycle. */
  predicate Transfers(c: Control)
    requires |c.io| == IO_SLOTS
  {
    c.io[DISKSTATUS] != 0 && c.diskCycles == DISK_CYCLES
  }

  /** The disk copies sector disksector into memory at diskbuffer this cycle. */
  predicate ReadsSector(c: Control)
    requires |c.io| == IO_SLOTS
  {
    Transfers(c) && c.io[DISKCMD] == 1
  }

  /** The disk copies memory at diskbuffer into sector disksector this cycle. */
  predicate WritesSector(c: Control)
    requires |c.io| == IO_SLOTS
  {
    Transfers(c) && c.io[DISKCMD] == 2
  }

  /** A transfer about to fire names a sector of the disk and a buffer that
      fits in memory. */
  predicate TickDefined(c: Control)
    requires |c.io| == IO_SLOTS
  {
    Transfers(c) && (c.io[DISKCMD] == 1 || c.io[DISKCMD] == 2) ==>
      0 <= c.io[DISKSECTOR] < DISK_SECTORS && 0 <= c.io[DISKBUFFER] && c.io[DISKBUFFER] + SECTOR_WORDS <= MEM_DEPTH
  }

  /** handle_disk, called while diskstatus is set: it counts one busy cycle,
      or, on the call that finds the counter at 1024, completes the command,
      restarts the counter, clears diskcmd and diskstatus and raises
      irq1status. */
  function DiskPhase(c: Control): (d: Control)
    requires |c.io| == IO_SLOTS && 0 <= c.diskCycles <= DISK_CYCLES
    ensures |d.io| == IO_SLOTS && 0 <= d.diskCycles <= DISK_CYCLES
    ensures d.pc == c.pc && d.inIsr == c.inIsr && d.irq == c.irq && d.index == c.index
  {
    if c.io[DISKSTATUS] == 0 then c
    else
      c.(io := if Transfers(c) then c.io[DISKCMD := 0][DISKSTATUS := 0][IRQ1STATUS := 1] else c.io,
         diskCycles := DiskCounterNext(c.diskCycles))
  }

  /** A disk image: DISK_SECTORS sectors of SECTOR_WORDS words each. */
  predicate DiskShaped(disk: seq<seq<Int32>>) {
    |disk| == DISK_SECTORS && forall s | 0 <= s < |disk| :: |disk[s]| == SECTOR_WORDS
  }

  /** Memory after the disk phase: read_sector copies sector disksector over
      the SECTOR_WORDS words at diskbuffer; every other word, and every
      other cycle, leaves memory alone. */
  function DiskMemory(c: Control, memory: seq<Int32>, disk: seq<seq<Int32>>): (r: seq<Int32>)
    requires |c.io| == IO_SLOTS && TickDefined(c) && |memory| == MEM_DEPTH && DiskShaped(disk)
    ensures |r| == MEM_DEPTH
    ensures !ReadsSector(c) ==> r == memory
    ensures ReadsSector(c) ==>
              var sector, buffer := c.io[DISKSECTOR], c.io[DISKBUFFER];
              && r[buffer..buffer + SECTOR_WORDS] == disk[sector]
              && forall a | 0 <= a < MEM_DEPTH && !(buffer <= a < buffer + SECTOR_WORDS) :: r[a] == memory[a]
  {
    if !ReadsSector(c) then memory
    else
      var sector, buffer := c.io[DISKSECTOR], c.io[DISKBUFFER];
      memory[..buffer] + disk[sector] + memory[buffer + SECTOR_WORDS..]
  }

  /** The disk after the disk phase: write_sector replaces sector disksector
      by the SECTOR_WORDS words of memory at diskbuffer; every other sector,
      and every other cycle, leaves the disk alone. */
  function DiskImage(c: Control, memory: seq<Int32>, disk: seq<seq<Int32>>): (r: seq<seq<Int32>>)
    requires |c.io| == IO_SLOTS && TickDefined(c) && |memory| == MEM_DEPTH && DiskShaped(disk)
    ensures DiskShaped(r)
    ensures !WritesSector(c) ==> r == disk
    ensures WritesSector(c) ==>
              var sector, buffer := c.io[DISKSECTOR], c.io[DISKBUFFER];
              && r[sector] == memory[buffer..buffer + SECTOR_WORDS]
              && forall s | 0 <= s < DISK_SECTORS && s != sector :: r[s] == disk[s]
  {
    if !WritesSector(c) then disk
    else disk[c.io[DISKSECTOR] := memory[c.io[DISKBUFFER]..c.io[DISKBUFFER] + SECTOR_WORDS]]
  }

  /** The memory watermark after the disk phase: only a read raises it. */
  function DiskDepth(c: Control, depth: int): (r: int)
    requires |c.io| == IO_SLOTS
    ensures r >= depth
    ensures ReadsSector(c) ==> r > c.io[DISKBUFFER] + SECTOR_WORDS
    ensures !ReadsSector(c) ==> r == depth
  {
    if ReadsSector(c) then ReadSectorDepth(depth, c.io[DISKBUFFER]) else depth
  }

  /** The disk watermark after the disk phase: only a write moves it. */
  function DiskOffset(c: Control, diskOffset: int): (r: int)
    requires |c.io| == IO_SLOTS
    ensures !WritesSector(c) ==> r == diskOffset
  {
    if WritesSector(c) then SectorWriteOffset(diskOffset, c.io[DISKSECTOR]) else diskOffset
  }

  /** Writing a sector from a buffer and reading it back into the same
      buffer leaves memory as it was. */
  lemma WriteThenReadRestores(w: Control, r: Control, memory: seq<Int32>, disk: seq<seq<Int32>>)
    requires |w.io| == IO_SLOTS && |r.io| == IO_SLOTS && TickDefined(w) && TickDefined(r)
    requires |memory| == MEM_DEPTH && DiskShaped(disk)
    requires WritesSector(w) && ReadsSector(r)
    requires r.io[DISKSECTOR] == w.io[DISKSECTOR] && r.io[DISKBUFFER] == w.io[DISKBUFFER]
    ensures DiskMemory(r, memory, DiskImage(w, memory, disk)) == memory
  {
    var buffer := w.io[DISKBUFFER];
    var m := DiskMemory(r, memory, DiskImage(w, memory, disk));
    forall a | 0 <= a < MEM_DEPTH
      ensures m[a] == memory[a]
    {
      if buffer <= a < buffer + SECTOR_WORDS {
        assert m[a] == m[buffer..buffer + SECTOR_WORDS][a - buffer];
      }
    }
  }

  /** Reading a sector into a buffer and writing the buffer back to the same
      sector leaves the disk as it was. */
  lemma ReadThenWriteRestores(r: Control, w: Control, memory: seq<Int32>, disk: seq<seq<Int32>>)
    requires |w.io| == IO_SLOTS && |r.io| == IO_SLOTS && TickDefined(w) && TickDefined(r)
    requires |memory| == MEM_DEPTH && DiskShaped(disk)
    requires ReadsSector(r) && WritesSector(w)
    requires r.io[DISKSECTOR] == w.io[DISKSECTOR] && r.io[DISKBUFFER] == w.io[DISKBUFFER]
    ensures DiskImage(w, DiskMemory(r, memory, disk), disk) == disk
  {
    var sector := w.io[DISKSECTOR];
    var d := DiskImage(w, DiskMemory(r, memory, disk), disk);
    forall s | 0 <= s < DISK_SECTORS
      ensures d[s] == disk[s]
    {
    }
  }

  /** check_interrupts (timer, then schedule), then handle_interrupts (the
      dispatch when the line is up outside a routine), then
      handle_clock_cycles. */
  function InterruptPhase(c: Control, schedule: seq<Int32>): (t: Control)
    requires WellShaped(c, schedule)
    ensures WellShaped(t, schedule) && t.diskCycles == c.diskCycles
    ensures t.index == c.index || t.index == c.index + 1
  {
    var (io1, index) := InterruptCheck(c.io, schedule, c.index);
    var taken := IrqLine(io1) && !c.inIsr;
    var io2 := if taken then io1[IRQRETURN := c.pc] else io1;
    Control(io2[CLKS := ClockTick(io2[CLKS])], if taken then io1[IRQHANDLER] else c.pc,
            c.inIsr || taken, IrqLine(io1), c.diskCycles, index)
  }

  /** The devices' part of a cycle, in main's order: the disk, then the
      interrupts, then the clock. */
  function DeviceTick(c: Control, schedule: seq<Int32>): (t: Control)
    requires WellShaped(c, schedule)
    ensures WellShaped(t, schedule)
    ensures t.index == c.index || t.index == c.index + 1
  {
    InterruptPhase(DiskPhase(c), schedule)
  }

  // ---------------------------------------------------------------------
  // What an instruction does and does not touch

  /** Only rd can change, and only for the opcodes that write a register;
      halt and the opcodes outside 0..21 change no state at all. */
  lemma ExecFrame(f: Fields, c: Control, regs: seq<Int32>, memory: seq<Int32>, depth: int)
    requires |regs| == CPU_REG_NUM && |memory| == MEM_DEPTH && |c.io| == IO_SLOTS
    requires Encodable(f) && DefinedOn(f, regs, c.io)
    ensures forall k | 0 <= k < CPU_REG_NUM && k != f.rd :: ExecRegs(f, regs, memory, c.io, c.pc)[k] == regs[k]
    ensures !(IsAlu(f.opcode) || f.opcode == JAL || f.opcode == LW || f.opcode == IN) ==>
              ExecRegs(f, regs, memory, c.io, c.pc) == regs
    ensures f.opcode != OUT ==> ExecControl(f, c, regs).io == c.io && ExecControl(f, c, regs).diskCycles == c.diskCycles
    ensures f.opcode == HALT || !IsOpcode(f.opcode) ==>
              && ExecControl(f, c, regs) == c && ExecRegs(f, regs, memory, c.io, c.pc) == regs
              && ExecMemory(f, regs, memory) == memory && ExecDepth(f, regs, depth) == depth
              && IoEvents(f, regs, c.io) == []
  {
  }

  /** The words a store writes and a load then reads back agree: lw of the
      address sw just wrote yields the stored value plus lw's own rm operand. */
  lemma StoreThenLoad(s: Fields, l: Fields, regs: seq<Int32>, memory: seq<Int32>, io: seq<Int32>, pc: Int32)
    requires |regs| == CPU_REG_NUM && |memory| == MEM_DEPTH && |io| == IO_SLOTS
    requires Encodable(s) && Encodable(l) && s.opcode == SW && l.opcode == LW
    requires DefinedOn(s, regs, io) && DefinedOn(l, regs, io) && Index(s, regs) == Index(l, regs)
    ensures ExecRegs(l, regs, ExecMemory(s, regs, memory), io, pc)[l.rd] ==
            Wrap32(Wrap32(Arg(s.rm, s, regs) as int + Arg(s.rd, s, regs)) as int + Arg(l.rm, l, regs))
  {
  }

  // ---------------------------------------------------------------------
  // What the devices do in a cycle

  /** The clock register advances by exactly one handle_clock_cycles tick,
      whatever else happens. */
  lemma ClockAdvances(c: Control, schedule: seq<Int32>)
    requires WellShaped(c, schedule)
    ensures DeviceTick(c, schedule).io[CLKS] == ClockTick(c.io[CLKS])
  {
  }

  /** The devices only ever raise interrupt statuses, so a line that is up
      before they tick is still up after. */
  lemma LineStaysUp(c: Control, schedule: seq<Int32>)
    requires WellShaped(c, schedule) && IrqLine(c.io)
    ensures DeviceTick(c, schedule).irq
  {
    var io1 := DiskPhase(c).io;
    assert IrqLine(io1);
    var io2 := TimerTick(io1);
    assert IrqLine(io2);
    var (io3, _) := Irq2Check(io2, schedule, c.index);
    assert IrqLine(io3);
  }

  /** Dispatch: outside a routine, a raised line sends pc to irqhandler,
      saves the interrupted pc in irqreturn and enters the routine; inside
      one, or with the line down, pc and the routine flag are left alone. */
  lemma DispatchRule(c: Control, schedule: seq<Int32>)
    requires WellShaped(c, schedule)
    ensures var t := DeviceTick(c, schedule);
            && (t.irq && !c.inIsr ==>
                  t.pc == c.io[IRQHANDLER] && t.io[IRQRETURN] == c.pc && t.inIsr)
            && (!t.irq || c.inIsr ==>
                  t.pc == c.pc && t.inIsr == c.inIsr && t.io[IRQRETURN] == c.io[IRQRETURN])
  {
  }

  /** An interrupt pending when the devices tick is taken in that same
      cycle unless a routine is already running. */
  lemma PendingInterruptDispatches(c: Control, schedule: seq<Int32>)
    requires WellShaped(c, schedule) && IrqLine(c.io) && !c.inIsr
    ensures var t := DeviceTick(c, schedule);
            t.pc == c.io[IRQHANDLER] && t.io[IRQRETURN] == c.pc && t.inIsr && t.irq
  {
    LineStaysUp(c, schedule);
    DispatchRule(c, schedule);
  }

  /** The disk counter: it counts while diskstatus is set and stands still
      otherwise; the tick that finds it at 1024 completes the command. */
  lemma DiskTick(c: Control, schedule: seq<Int32>)
    requires WellShaped(c, schedule)
    ensures var t := DeviceTick(c, schedule);
            && (c.io[DISKSTATUS] == 0 ==> t.diskCycles == c.diskCycles && t.io[DISKSTATUS] == 0)
            && (c.io[DISKSTATUS] != 0 && c.diskCycles < DISK_CYCLES ==>
                  t.diskCycles == c.diskCycles + 1 && t.io[DISKSTATUS] == c.io[DISKSTATUS])
            && (Transfers(c) ==>
                  t.diskCycles == 0 && t.io[DISKCMD] == 0 && t.io[DISKSTATUS] == 0 && t.io[IRQ1STATUS] == 1)
  {
  }

  // ---------------------------------------------------------------------
  // A whole cycle

  /** The control state after one full cycle of `f`. */
  function CycleControl(f: Fields, c: Control, regs: seq<Int32>, schedule: seq<Int32>): (t: Control)
    requires WellShaped(c, schedule) && |regs| == CPU_REG_NUM && Encodable(f) && DefinedOn(f, regs, c.io)
    ensures WellShaped(t, schedule)
  {
    DeviceTick(ExecControl(f, c, regs), schedule)
  }

  /** An out that arms the disk is already counted by the devices in the
      same cycle: the counter reads 1 after it and the disk is busy. */
  lemma OutArmsDiskThisCycle(f: Fields, c: Control, regs: seq<Int32>, schedule: seq<Int32>)
    requires WellShaped(c, schedule) && |regs| == CPU_REG_NUM && Encodable(f) && DefinedOn(f, regs, c.io)
    requires Arms(f, regs)
    ensures CycleControl(f, c, regs, schedule).diskCycles == 1
    ensures CycleControl(f, c, regs, schedule).io[DISKSTATUS] == 1
  {
  }

  /** An out that enables irq0 while irq0status is set is followed by the
      dispatch in that same cycle (the interrupt check runs after the
      instruction), and the routine returns to the instruction after the out. */
  lemma OutEnableDispatches(f: Fields, c: Control, regs: seq<Int32>, schedule: seq<Int32>)
    requires WellShaped(c, schedule) && |regs| == CPU_REG_NUM && Encodable(f) && DefinedOn(f, regs, c.io)
    requires f.opcode == OUT && Index(f, regs) == IRQ0ENABLE && Bit0(Arg(f.rm, f, regs)) == 1
    requires Bit0(c.io[IRQ0STATUS]) == 1 && !c.inIsr
    ensures var t := CycleControl(f, c, regs, schedule);
            t.pc == c.io[IRQHANDLER] && t.io[IRQRETURN] == Next(c.pc) && t.inIsr
  {
    var e := ExecControl(f, c, regs);
    assert e.io == c.io[IRQ0ENABLE := Arg(f.rm, f, regs)];
    assert IrqLine(e.io) && !e.inIsr && e.pc == Next(c.pc);
    PendingInterruptDispatches(e, schedule);
  }

  /** Without an interrupt dispatch the cycle leaves pc where the
      instruction put it. */
  lemma NoDispatchKeepsPc(f: Fields, c: Control, regs: seq<Int32>, schedule: seq<Int32>)
    requires WellShaped(c, schedule) && |regs| == CPU_REG_NUM && Encodable(f) && DefinedOn(f, regs, c.io)
    requires !CycleControl(f, c, regs, schedule).irq || c.inIsr
    requires f.opcode != RETI
    ensures CycleControl(f, c, regs, schedule).pc == ExecControl(f, c, regs).pc
  {
    DispatchRule(ExecControl(f, c, regs), schedule);
  }
}
