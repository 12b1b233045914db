# SIMP assembler and simulator, modelled in Dafny

This project models the two tools of the SIMP toolchain, a toy 22-opcode
processor with memory-mapped I/O devices.

- `asm.c` is a two-pass assembler. The first pass records every label with
  the instruction address it stands for. The second pass turns each
  instruction line into a 12-digit hexadecimal word for `imemin.txt`, and
  collects the `.word` directives into a data image for `dmemin.txt`.
- `sim.c` is a cycle-by-cycle simulator. Each cycle it:
  - fetches and decodes the word at `pc`, and writes a trace line;
  - executes the instruction;
  - runs the disk controller while `diskstatus` is set;
  - updates the timer and the external-interrupt schedule, and may enter
    the interrupt routine;
  - advances the clock.

The model is split into these modules:

| file | module | contents |
|---|---|---|
| `words.dfy` | `Words` | 32-bit C `int` values with explicit wrap-around, `& 1` and `& 0xfff`, fixed-width upper-case hexadecimal text |
| `codec.dfy` | `Codec` | the instruction word: the simulator's decoder, the assembler's `%02X%01X%01X%01X%01X%03X%03X` encoder, both round trips |
| `isa.dfy` | `Isa` | opcode numbers, operand selection (`set_register`), the ALU and branch semantics |
| `iobank.dfy` | `IoBank` | I/O register slots and their trace names (`find_io_reg`) |
| `devices.dfy` | `Devices` | timer, interrupt schedule, interrupt line, clock, disk latency and watermarks, reported cycle count, as functions of the register bank |
| `semantics.dfy` | `Semantics` | one cycle as functions of values: what each instruction does to the registers, memory, I/O bank and control state, what the devices do after it, and what a cycle promises |
| `simulator.dfy` | `Simulator` | the `Machine` class with the simulator's globals as fields, one method per handler, and the cycle and the run loop |
| `asm_parse.dfy` | `AsmParse` | line classification, mnemonic and register tables, number parsing, the label list |
| `assembler.dfy` | `Assembler` | `first_pass`, `second_pass`, `parse_line_imemin`, `set_memory`, `dmemin_write`, and how the two passes agree |

Modelling choices:

- **Undefined behaviour.** Signed overflow wraps modulo 2^32. Some C
  operations have no defined result:
  - a shift count outside 0..31;
  - a `lw`/`sw` index outside the memory;
  - an `in`/`out` index outside the register bank;
  - drawing with `monitoraddr` outside the 256×256 frame;
  - a disk transfer naming a sector or buffer outside the disk or memory.

  `Machine.Step` stops before such an operation and reports the
  `Undefined` outcome. The handler methods take the same conditions as
  preconditions.
- **The I/O bank has 23 slots.** The source declares 22 registers, yet
  `in` and `out` address slot 22 (`monitorcmd`), one past the array. The
  model gives it a real 23rd slot.
- **The instruction word is 12 hexadecimal digits.** The assembler prints
  12 digits and a newline per line (asm.c:320). The simulator reads 12
  digits after seeking `pc * 13` bytes (sim.c:132-133). The model's
  `program[i]` stands for the 12 digits at byte offset 13·i of imemin.txt.
- **Timer period.** The timer counts first and then compares with
  timermax (sim.c:409-423). An enabled timer started at 0 therefore fires
  on tick timermax (`Devices.TimerPeriod`).
- **Quirks are kept as written:**
  - the disk transfer happens on the call that finds the counter at 1024;
  - `read_sector` raises `depth` to `buffer + 129`;
  - `write_sector`'s watermark can stop one short of the sector end;
  - the timer's reset check also runs while the timer is disabled;
  - an opcode outside 0..21 changes nothing, not even `pc`;
  - a first token with a `#` before its `:` is a label to `second_pass`
    but not to `first_pass` (`Assembler.Consistent` names the lines where
    the two passes agree, and `Assembler.PassesDisagree` shows a line
    where they do not).

## Model

| member | source | states |
|---|---|---|
| Words.Wrap32 | sim.c:744-751 | the C `int` result of an arithmetic expression: congruent to the mathematical value modulo 2^32 and equal to it when in range |
| Words.Unsigned32 | sim.c:894-901 | `(unsigned int)x`: the same bit pattern as a value in 0..2^32-1, equal to `x` when non-negative |
| Words.WrapUnsigned | asm.c:351-360 | converting an `int` to unsigned and back to `int` gives it back |
| Words.Bit0 | sim.c:409-423 | `x & 1` is 0 or 1 and has the parity of `x`, negative values included |
| Words.Mask12 | sim.c:1077-1083 | `x & 0xfff` lies in 0..4095 and is congruent to `x` modulo 4096 |
| Words.HexDigit | asm.c:320 | the upper-case digit `%X` prints for a value below 16 reads back as that value |
| Words.HexDigitOfValue | asm.c:320 | reading an upper-case digit and printing the value gives the digit back |
| Words.HexValue | sim.c:585-601 | the value of a string of hexadecimal digits is below 16^length |
| Words.Hex | asm.c:320 | the fixed-width text of a value is exactly `w` upper-case digits |
| Words.HexMin | asm.c:320 | what `%0wX` prints is at least one upper-case digit |
| Words.HexRoundTrip | sim.c:585-601 | reading the `w` digits printed for `n < 16^w` gives `n` |
| Words.HexOfValue | asm.c:320 | printing the value of a string of `w` upper-case digits at width `w` gives the string back |
| Words.HexMinFits | asm.c:320 | `%0wX` of a value that fits `w` digits is just zero padding to `w` digits |
| Words.HexMinWidens | asm.c:320 | `%0wX` of a value too wide for `w` digits prints more than `w` digits |
| Codec.Sext12 | sim.c:591-601 | a 3-digit field of 0x800 or more becomes that value minus 0x1000: the result is in -2048..2047, keeps the field's low 12 bits, and is negative exactly when the field is 0x800 or more |
| Codec.SextMask | sim.c:591-601 | sign-extending the low 12 bits of a value in -2048..2047 gives it back |
| Codec.Decode | sim.c:566-602 | decoding yields an opcode in 0..255, selectors in 0..15 and immediates in -2048..2047 whose low 12 bits are the digits at positions 6..8 and 9..11 |
| Codec.Encode | asm.c:320 | the printed word is upper-case hexadecimal |
| Codec.FieldLength | asm.c:320 | a `%0wX` field of an int is exactly `w` digits iff its unsigned value fits in `w` digits |
| Codec.EncodeWidth | asm.c:320 | the printed word has at least 12 digits, and exactly 12 iff the opcode fits two digits and every register one |
| Codec.EncodeDigits | asm.c:320 | on fields inside the format, each slice of the word is the fixed-width text of its field, the immediates masked with 0xFFF |
| Codec.FieldFits | asm.c:320 | a small field that fits its width prints as its fixed-width text |
| Codec.SliceSeven | asm.c:320 | the seven printed fields sit at positions 0-1, 2, 3, 4, 5, 6-8 and 9-11 |
| Codec.DecodeEncode | asm.c:320 | for opcode 0..255, registers 0..15 and immediates -2048..2047, decoding the printed word gives back every field |
| Codec.DecodeEncodeImmediate | asm.c:320 | with any immediates, the decoded word keeps every other field and gives each immediate's low 12 bits sign-extended; an immediate in 0..4095 is recovered by `& 0xfff` |
| Codec.EncodeDecode | sim.c:566-602 | printing the decoded fields of a 12-digit upper-case word gives the word back |
| Isa.OperandIgnoresAliasSlots | sim.c:718-732 | selector 1 reads imm1 and selector 2 reads imm2, so no operand depends on what registers 1 and 2 hold |
| Isa.Operand | sim.c:718-732 | selector 1 reads imm1, selector 2 reads imm2, and any other selector reads that register |
| Isa.Sll | sim.c:858-864 | `a << n` is congruent to a·2^n modulo 2^32 |
| Isa.Srl | sim.c:894-901 | a logical shift by 0 gives the operand back, and by n ≥ 1 gives the unsigned value divided by 2^n, which is non-negative |
| Isa.AluValue | sim.c:744-901 | add, sub and mac are congruent modulo 2^32 to a+b+c, a-b-c and a·b+c, sll to a·2^b, sra is floor division by 2^b and srl the unsigned division |
| Isa.ShiftRightBounds | sim.c:876-882 | shifting right keeps the sign and does not grow the magnitude, and a shift by at least one at most halves a non-negative value |
| Isa.Sra | sim.c:876-882 | an arithmetic right shift by n is floor division by 2^n: it keeps the operand's sign and does not grow its magnitude |
| Isa.DivUnique | sim.c:876-882 | a quotient with a remainder in 0..d-1 is the floor quotient |
| Isa.HalfThenDivide | sim.c:876-882 | halving and then dividing by m is dividing by 2m, both rounding down |
| Isa.ShiftRightIsDivision | sim.c:876-882 | shifting right n times by one bit is floor division by 2^n |
| Isa.RightShiftsAgree | sim.c:876-901 | on a non-negative operand `srl` and `sra` agree |
| Isa.ShiftSigns | sim.c:876-901 | `srl` by at least one is the unsigned value divided by 2^n and is non-negative, while `sra` is negative exactly when its operand is |
| Isa.ShiftOfMinusOne | sim.c:876-901 | `srl(-1, 1)` is 0x7FFFFFFF and `sra(-1, 1)` is -1 |
| Isa.BranchPairs | sim.c:915-1063 | beq/bne, blt/bge and bgt/ble are complementary conditions |
| Isa.BranchTaken | sim.c:915-1063 | for equal, smaller and greater operands the branch is taken exactly for beq/ble/bge, bne/blt/ble and bne/bgt/bge respectively |
| IoBank.IoRegName | sim.c:1293-1382 | a slot has a non-empty name exactly when it is 0..17 or 20..22, and the name is the slot's entry in the register table |
| IoBank.IoRegNameInjective | sim.c:1293-1382 | no two named slots share a name |
| Devices.TimerTick | sim.c:409-423 | one timer update changes only timercurrent and irq0status, and raises irq0status only while resetting timercurrent to 0 |
| Devices.TimerTicks | sim.c:409-423 | any number of timer updates keeps the register bank's size |
| Devices.TimerPeriod | sim.c:409-423 | an enabled timer from 0 with timermax N ≥ 1 reads k after k < N updates with nothing raised, and is back at 0 with irq0status set after N |
| Devices.TimerDisabled | sim.c:409-423 | a disabled timer does not count, but still resets and raises irq0status while timercurrent equals timermax |
| Devices.Irq2Check | sim.c:396-403 | the schedule cursor advances by one exactly when it is in range and its entry equals clks, never passes the schedule's end, and irq2status is raised exactly then |
| Devices.InterruptCheck | sim.c:470-486 | the timer update then the schedule check keep the bank's size and the cursor within the schedule |
| Devices.IrqLine | sim.c:478-485 | the combined line is up exactly when some line 0..2 has enable bit 0 and status bit 0 set |
| Devices.Irq2LatchedWhileDisabled | sim.c:396-486 | a scheduled interrupt latches irq2status even with line 2 disabled, and then leaves the combined line as it was |
| Devices.ClockTick | sim.c:430-437 | the clock never holds 0xFFFFFFFF |
| Devices.ClockCountsModulo | sim.c:430-437 | read as unsigned, the clock counts modulo 0xFFFFFFFF |
| Devices.DiskLatency | sim.c:494-515 | from 0 the counter reads n after n ≤ 1024 ticks and reaches 1024 only after exactly 1024 |
| Devices.DiskCounterNext | sim.c:494-515 | on a counter in 0..1024 the next value is counter + 1 modulo 1025 |
| Devices.ReadSectorDepth | sim.c:522-533 | the memory watermark never decreases and reaches `buffer + 129` |
| Devices.SectorOffsetStep | sim.c:540-552 | one more loop iteration sets the disk watermark to offset + 1 if the word's offset exceeds it, and keeps it otherwise |
| Devices.SectorWriteOffset | sim.c:540-552 | the disk watermark never decreases, reaches at least the sector's last word minus one, and never passes the larger of the old watermark and the sector end |
| Devices.SectorWriteOffsetBounds | sim.c:540-552 | after writing a sector the watermark never decreases and reaches at least the sector's last word; it is unchanged if already past the sector, stops one short if it started below the sector, and otherwise ends on the sector end or one short by parity |
| Devices.CyclesReported | sim.c:1493-1498 | the reported count equals clks iff the disk is idle or its counter is at 1024, and otherwise adds the cycles still pending to reach 1024, modulo 2^32 as a C int sum; below MAX32 - 1024 no wrap occurs and the sum is exact |
| Devices.CyclesReportedWraps | sim.c:1493-1498 | with the disk just armed and clks at MAX32 the reported figure wraps to a negative number |
| Semantics.ExecIo | sim.c:1193-1221 | only out writes the I/O bank, and only the addressed register and diskstatus; arming the disk puts the command in diskcmd and 1 in diskstatus |
| Semantics.DefinedOn | sim.c:618-708 | branches, jal, reti and halt are defined whatever the registers and I/O bank hold |
| Semantics.Draws | sim.c:1200-1210 | an out that draws a pixel is not an out that arms the disk |
| Semantics.ExecControl | sim.c:618-708 | only reti leaves the routine; only out touches the I/O bank and the disk counter; pc advances by one, jumps inside 0..4095, returns to irqreturn, or the state is unchanged |
| Semantics.ExecRegs | sim.c:618-708 | every register except rd keeps its value |
| Semantics.ExecMemory | sim.c:1119-1133 | only sw writes memory, only at rs+rt, and the word stored is congruent modulo 2^32 to rm's operand plus rd's |
| Semantics.ExecDepth | sim.c:1127-1130 | the memory watermark never decreases, only sw moves it, and after sw it exceeds the address, being either unchanged or address + 1 |
| Semantics.IoEvents | sim.c:1165-1221 | in and out each log exactly one hwregtrace line, other opcodes none |
| Semantics.SlotEvents | sim.c:1193-1221 | an out logs one leds or display7seg line exactly when it writes that register |
| Semantics.ExecFrame | sim.c:618-708 | an instruction writes at most rd, only the register-writing opcodes write it, only out touches the I/O bank and the disk counter, and halt or an opcode outside 0..21 changes nothing |
| Semantics.StoreThenLoad | sim.c:1098-1133 | a lw from the address a sw just wrote reads the stored word |
| Semantics.DiskPhase | sim.c:494-515 | the disk step changes neither pc, the routine flag, the line nor the cursor, and keeps the counter in 0..1024 |
| Semantics.InterruptPhase | sim.c:430-486 | the interrupt and clock steps leave the disk counter alone and advance the cursor by at most one |
| Semantics.DeviceTick | sim.c:153-163 | the devices keep the state well shaped and advance the cursor by at most one |
| Semantics.ClockAdvances | sim.c:430-437 | after the devices, clks has advanced by exactly one `ClockTick` |
| Semantics.LineStaysUp | sim.c:470-486 | the devices only raise statuses, so a line up before they run is up after |
| Semantics.DispatchRule | sim.c:448-462 | outside a routine a raised line sends pc to irqhandler, saves the old pc in irqreturn and enters the routine; otherwise pc, the flag and irqreturn are unchanged |
| Semantics.PendingInterruptDispatches | sim.c:448-486 | an interrupt pending when the devices run is taken in that cycle unless a routine is running |
| Semantics.DiskTick | sim.c:153-156 | the counter counts only while diskstatus is set; the tick at 1024 restarts it, clears diskcmd and diskstatus and raises irq1status |
| Semantics.DiskMemory | sim.c:522-533 | a read transfer puts the sector at memory[buffer..buffer+128) and leaves other words alone; without one memory is unchanged |
| Semantics.DiskImage | sim.c:540-552 | a write transfer puts memory[buffer..buffer+128) in the sector and leaves other sectors alone; without one the disk is unchanged |
| Semantics.DiskDepth | sim.c:522-533 | a read transfer raises the memory watermark past buffer + 128; otherwise it is unchanged |
| Semantics.DiskOffset | sim.c:540-552 | only a write transfer moves the disk watermark |
| Semantics.WriteThenReadRestores | sim.c:522-552 | writing a buffer to a sector and reading that sector back to the same buffer leaves memory as it was |
| Semantics.ReadThenWriteRestores | sim.c:522-552 | reading a sector into a buffer and writing the buffer back to that sector leaves the disk as it was |
| Semantics.CycleControl | sim.c:147-163 | a whole cycle keeps the state well shaped |
| Semantics.OutArmsDiskThisCycle | sim.c:1212-1219 | an out arming the disk leaves the counter at 1 and diskstatus at 1 after its own cycle, because the disk step runs after execution |
| Semantics.OutEnableDispatches | sim.c:147-163 | an out enabling irq0 while irq0status is set is dispatched in the same cycle, returning to the instruction after the out |
| Semantics.NoDispatchKeepsPc | sim.c:147-163 | without a dispatch a cycle leaves pc where the instruction put it |
| Simulator.Record | sim.c:1240-1254 | a trace record holds the pc, the 12 digits, the decoded immediates and r3..r15 |
| Simulator.Machine.constructor | sim.c:96-110 | the initial state: memory, disk and schedule loaded, watermarks at their lengths, everything else zero, `cont` set |
| Simulator.Machine.Alu | sim.c:744-901 | only `regs[rd]` changes, to the operation on the selected operands, and pc advances by one |
| Simulator.Machine.Branch | sim.c:915-1063 | a taken branch jumps to rm's operand masked to 0..4095, an untaken one advances pc; nothing else changes |
| Simulator.Machine.Jal | sim.c:1077-1083 | `regs[rd] := pc + 1` and pc becomes rm's operand, read before the link, masked to 0..4095 |
| Simulator.Machine.Lw | sim.c:1098-1105 | only `regs[rd]` changes, to memory[rs+rt] plus rm's operand; pc advances |
| Simulator.Machine.Sw | sim.c:1119-1133 | only memory[rs+rt] changes, to rm's operand plus rd's; depth becomes max(depth, rs+rt+1); pc advances |
| Simulator.Machine.Reti | sim.c:1146-1150 | pc is restored from irqreturn and the routine is left |
| Simulator.Machine.In | sim.c:1165-1175 | only `regs[rd]` changes, to the register read (0 for monitorcmd), and a read of that register's value is logged |
| Simulator.Machine.Out | sim.c:1193-1221 | the register is written and logged with the post-write clock; a 1 to monitorcmd draws monitordata at monitoraddr, clears the command and raises max_monitor_offset; a 1 or 2 to diskcmd sets diskstatus and restarts the disk counter; writes to leds and display7seg are logged |
| Simulator.Machine.Halt | sim.c:1227-1230 | the run stops after this cycle |
| Simulator.Machine.Execute | sim.c:618-708 | the control state becomes `ExecControl`, the registers `ExecRegs`, the memory and depth `ExecMemory` and `ExecDepth`, the logs grow by `IoEvents` and `SlotEvents`, a drawn pixel lands at monitoraddr, and halt clears `cont` |
| Simulator.Machine.ExecuteCore | sim.c:618-708 | the same for every opcode except in and out, with the I/O bank and logs untouched |
| Simulator.Machine.ExecuteIo | sim.c:1165-1221 | the same for in and out |
| Simulator.Machine.ReadSector | sim.c:522-533 | memory[buffer..buffer+128) receives the sector, other words are unchanged, and depth follows `ReadSectorDepth` |
| Simulator.Machine.WriteSector | sim.c:540-552 | the sector receives memory[buffer..buffer+128), other sectors are unchanged, and disk_offset follows `SectorWriteOffset` |
| Simulator.Machine.HandleDisk | sim.c:494-515 | the counter increments unless it is at 1024; at 1024 the command runs, the counter resets, diskcmd and diskstatus clear and irq1status is set whatever the command was |
| Simulator.Machine.UpdateTimer | sim.c:409-423 | the register bank becomes `TimerTick` of the old one |
| Simulator.Machine.CheckIrq2In | sim.c:396-403 | the bank and the cursor become `Irq2Check` of the old ones |
| Simulator.Machine.CheckInterrupts | sim.c:470-486 | the timer then the schedule are updated, and irq is the OR over lines 0..2 of enable bit 0 AND status bit 0 |
| Simulator.Machine.HandleInterrupts | sim.c:448-462 | an interrupt is taken exactly when irq is up outside a routine: pc is saved in irqreturn, pc becomes irqhandler and the routine is entered; inside a routine pc is untouched |
| Simulator.Machine.HandleClockCycles | sim.c:430-437 | only clks changes, by `ClockTick` |
| Simulator.Machine.Step | sim.c:130-164 | a pc outside the image ends the run with nothing changed; otherwise the trace gets the record of the fetched word and the cycle of the decoded word follows, as for Cycle: the control state becomes `CycleControl`, the registers `ExecRegs`, memory, disk, depth and disk_offset follow `DiskMemory`, `DiskImage`, `DiskDepth` and `DiskOffset` of the instruction's result, a drawn pixel lands at monitoraddr, the logs grow by `IoEvents` and `SlotEvents`, and Halted is reported exactly for halt |
| Simulator.Machine.Cycle | sim.c:147-163 | the cycle is defined exactly when the instruction is and the disk transfer after it is; then the control state becomes `DeviceTick` of `ExecControl` (the devices see the I/O bank as the instruction left it), the registers `ExecRegs`, memory and disk follow `DiskMemory` and `DiskImage` applied to `ExecMemory`, depth `DiskDepth` of `ExecDepth`, disk_offset `DiskOffset`, a drawn pixel lands at monitoraddr and raises max_monitor_offset, and the logs grow by the instruction's events |
| Simulator.Machine.EndCycle | sim.c:153-163 | after an executed instruction, the devices make the control state `CycleControl` of the state before the cycle and the stores follow the disk transfer of the instruction's result |
| Simulator.Machine.TickDevices | sim.c:153-163 | the control state becomes `DeviceTick` of the old one (disk, then interrupts, then clock); memory, disk, depth and disk_offset become `DiskMemory`, `DiskImage`, `DiskDepth` and `DiskOffset` of the old state; an undefined transfer changes nothing |
| Simulator.Machine.TickDisk | sim.c:153-156 | the control state becomes `DiskPhase` of the old one, and memory, disk, depth and disk_offset follow `DiskMemory`, `DiskImage`, `DiskDepth` and `DiskOffset` |
| Simulator.Machine.TickInterrupts | sim.c:158-162 | the control state becomes `InterruptPhase` of the old one |
| Simulator.Machine.Run | sim.c:130-164 | the loop makes `fuel` steps while running, appends one trace record per executed step (none for the step that finds pc off the image), keeps the watermarks monotone, and reports `CyclesReported` of the final clock and disk |
| AsmParse.StatusAt | asm.c:269-297 | the class of a token is 0, 1, 2 or 3 |
| AsmParse.LineStatus | asm.c:269-297 | 0 for a missing token or a leading '#', 2 for a leading '.', checked before ':', 3 if the token contains ':', 1 otherwise |
| AsmParse.ParseOpcode | asm.c:368-460 | the mnemonic's position in the 22-entry table, or -1 exactly for a string not in the table |
| AsmParse.ParseReg | asm.c:468-536 | the register name's position in the 16-entry table, or -1 exactly for a string not in the table |
| AsmParse.MnemonicsOneToOne | asm.c:368-460 | each mnemonic maps to its own opcode 0..21 |
| AsmParse.RegNamesOneToOne | asm.c:468-536 | each register name maps to its own number 0..15 |
| AsmParse.DigitIn | asm.c:556-562 | a digit's value is below its base |
| AsmParse.LeadingDigits | asm.c:558-562 | the digits `atoi`/`strtol` read are the longest prefix made of digits of the base |
| AsmParse.Decimal | asm.c:562 | the decimal text of a number is non-empty digits without a leading zero |
| AsmParse.LeadingDigitsAll | asm.c:558-562 | a string made only of digits is read entirely |
| AsmParse.DecimalValue | asm.c:562 | the decimal text of `n` has value `n` |
| AsmParse.DecimalRoundTrip | asm.c:562 | `atoi` and `strtol(s, NULL, 0)` of the decimal text of `n` or `-n` give it back |
| AsmParse.Atoi | asm.c:562 | `atoi` of text starting with '-' is at most 0, and of any other text at least 0 |
| AsmParse.StrtolAuto | asm.c:335-336 | `strtol(s, NULL, 0)` has the sign of its text, and text starting with 1..9 is read in base 10 |
| AsmParse.HexDigitsValue | asm.c:558 | hexadecimal digits read by `strtol` have the value the decoder gives them |
| AsmParse.HexRoundTrip0x | asm.c:558 | `strtol` of "0x" followed by the digits of `n` gives `n` |
| AsmParse.LabelLookupFirst | asm.c:573-587 | the first entry with the name wins |
| AsmParse.LabelLookup | asm.c:573-587 | the result is -1 or the address of an entry with that name |
| AsmParse.LabelLookupMissing | asm.c:573-587 | a name with no entry yields -1 |
| AsmParse.FindLabel | asm.c:573-587 | the list walk returns the label lookup's value |
| AsmParse.ParseImm | asm.c:545-564 | a token starting with a letter is a label lookup, one starting "0x"/"0X" hexadecimal, anything else decimal |
| AsmParse.ImmValueSpellings | asm.c:545-564 | hex, decimal, negative decimal and label spellings each give their value back |
| AsmParse.ImmValue | asm.c:545-564 | a token starting with a letter gives -1 or the address of a label with that name; one starting with neither a letter nor '-' gives a value of at least 0 |
| Assembler.ScanEnd | asm.c:151-190 | the scan stops at the first '#' or ':' or at the end of the token |
| Assembler.DefinedLabel | asm.c:151-190 | the label is the text before the first ':' and contains no ':' or '#'; there is none exactly when every ':' has a '#' before it |
| Assembler.ScanLabel | asm.c:151-190 | the character loop finds exactly `DefinedLabel` |
| Assembler.RowsOf | asm.c:140-193 | a line takes at most one address |
| Assembler.RowCount | asm.c:132-196 | the row count never exceeds the number of lines |
| Assembler.LabelsOf | asm.c:132-196 | there are no more labels than lines |
| Assembler.FirstPass | asm.c:132-196 | the label list and row count are those of `LabelsOf` and `RowCount` |
| Assembler.LabelsOfPrefix | asm.c:132-196 | the labels of a prefix of the file are a prefix of the labels, and its row count is no larger |
| Assembler.LabelsOrdered | asm.c:132-196 | label addresses never decrease along the list and none exceeds the final row count |
| Assembler.ClassOf | asm.c:215-229 | a line's class for the second pass is 0..3 |
| Assembler.LineWords | asm.c:244-248 | an instruction line yields exactly one word and any other line none |
| Assembler.Program | asm.c:206-258 | there are no more words than lines |
| Assembler.LineWrites | asm.c:330-342 | a directive yields at most one write, at an address inside the data memory |
| Assembler.DataWrites | asm.c:206-258 | every recorded write addresses the data memory |
| Assembler.DataDepth | asm.c:330-342 | the depth exceeds every written address and is 0 or one past some written address |
| Assembler.ImageAtLastWrite | asm.c:330-342 | the word at an address is the last directive written there |
| Assembler.ImageAtUnwritten | asm.c:208 | an address no directive names holds 0 |
| Assembler.Image | asm.c:208 | the data memory holds 4096 words |
| Assembler.ImageAppend | asm.c:330-342 | one directive stores its word at its address only and raises the depth to max(depth, address + 1) |
| Assembler.DataWord | asm.c:351-360 | a data line is 8 upper-case hexadecimal digits |
| Assembler.CollectWords | asm.c:231-236 | the collected words are the up to seven tokens from the start position |
| Assembler.ParseLineImemin | asm.c:306-321 | the word printed is the encoding of the parsed opcode, registers and immediates |
| Assembler.SetMemory | asm.c:330-342 | only `dmemin[address]` changes, and the depth becomes max(depth, address + 1) |
| Assembler.DmeminWrite | asm.c:351-360 | exactly `depth` lines, line `a` being the word at address `a` |
| Assembler.DataImage | asm.c:351-360 | at most 4096 lines, each 8 upper-case hexadecimal digits |
| Assembler.SecondPass | asm.c:206-258 | imemin is the program of the lines and dmemin is the data image up to the depth |
| Assembler.AssembleLines | asm.c:212-255 | the loop emits the program and leaves the data memory and depth of the directives seen |
| Assembler.SecondPassStep | asm.c:212-255 | each line appends its own words and writes to those of the lines before it |
| Assembler.AssembleLine | asm.c:214-254 | one line appends its word, or applies its directive to the data memory and depth |
| Assembler.PassesDisagree | asm.c:151-229 | the line "a#b:" takes an address in the first pass but yields no word in the second |
| Assembler.RowsOfMatchesClass | asm.c:186-193 | on a consistent line, the first pass counts one address exactly when the second pass emits a word |
| Assembler.RowCountIsProgramLength | asm.c:132-258 | the first pass's row count is the number of words the second pass emits |
| Assembler.LabelAddressIsPosition | asm.c:170-171 | a label on line j is recorded with the address of the next word emitted after the lines before it |
| Assembler.AssembledInstructionDecodes | asm.c:306-321 | an instruction with known mnemonic and registers prints a 12-digit word that decodes to its fields, with each immediate's low 12 bits sign-extended |
| Assembler.Pow16Eight | asm.c:351-360 | eight hexadecimal digits span 2^32 values |
| Assembler.DataWordRoundTrip | asm.c:351-360 | a data line read back as a 32-bit hexadecimal int gives the word itself |

## Left out

- File I/O is not modelled. That covers opening and closing files, the
  `fseek`/`fgets` fetch (modelled as indexing the sequence of instruction
  words), and `end_of_run`.
- Command-line argument checks and `strip_newline` are not modelled.
- The simulator's output dumps are not modelled: `dmemout`, `regout`,
  `diskout`, and the monitor text and yuv files. Only the cycle-count
  arithmetic of `write_to_cycles` is kept.
- The printf formatting of trace, hwregtrace, leds and display7seg lines is
  left out. They are sequences of records.
- The text of `first_init`, `init_memory`, `init_disk` and
  `create_interrupts_array` is not modelled. The loaded memory, disk and
  schedule are constructor arguments. A disk file with more than 16384
  non-empty lines makes `init_disk` return early with `disk_offset` left
  at 0 (sim.c:327-331); the constructor instead requires the contents to
  fit and sets the watermark to their length.
- The assembler reads text files, not token sequences. Its input is given
  as lines already split at " \t\n\r,". The `MAX_LINE` truncation of long
  lines is not modelled.
- A label longer than the 50-character name buffer overflows the buffer.
  This is not modelled: a label of any length is stored.
- Machine.Run: runs for at most `fuel` steps. It does not model an
  unbounded `while (cont)` loop that never halts.
- Machine.Step: `program[i]` stands for the 12 digits at byte offset 13·i
  of imemin.txt (sim.c:132-133). An image holding a wider line, which
  `Codec.EncodeWidth` shows the assembler prints for an unknown mnemonic or
  register, would shift every later fetch in C. That is not modelled.
- Machine.Step: stops with the `Undefined` outcome where the C code is
  undefined. These are out-of-range indices into memory, the I/O bank, the
  disk or the monitor, and shift counts outside 0..31. The C code would
  read or write outside its arrays.
- Assembler.SecondPass: requires every instruction line to have seven
  words, and every directive an address and data with the address in
  0..4095. The C code would otherwise reuse words left over from an earlier
  line, or write outside `dmemin`.
- AsmParse.ParseImm: `atoi` and `strtol` are modelled as reading the
  longest digit prefix after an optional `+` or `-` sign. Leading
  whitespace and saturation on overflow are not modelled. The assembler's
  `(int)` cast of a large value is not modelled either: only its low 12
  bits reach the word.
- Assembler.LineWrites: the directive's data is wrapped to 32 bits. The
  address must already lie in 0..4095, as stated above.
- Assembler.RowCountIsProgramLength: holds only for lines where the two
  passes agree (`Consistent`). A first token with a '#' before its ':' is a
  label to `second_pass` but not to `first_pass`.
- Isa.AluValue: the contract says nothing about and, or and xor beyond
  their definitions on 32-bit patterns.
