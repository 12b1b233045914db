// The per-cycle device state machines of the simulator, as functions of the
// I/O register bank: the timer (update_timer, sim.c:409-423), the external
// interrupt schedule (check_irq2in, sim.c:396-403), the combined interrupt
// line (check_interrupts, sim.c:470-486), the clock (handle_clock_cycles,
// sim.c:430-437), the disk latency counter and watermarks (handle_disk,
// read_sector, write_sector, sim.c:494-552) and the reported cycle count
// (write_to_cycles, sim.c:1493-1498). The machine's methods are proved to
// update its state by these functions.

module Devices {
  import opened Words
  import opened IoBank

  const DISK_CYCLES: nat := 1024
  const SECTOR_WORDS: nat := 128

  // ---------------------------------------------------------------------
  // Timer

  /** update_timer: count when bit 0 of timerenable is set; whenever the
      count equals timermax, enabled or not, reset it and raise irq0status. */
  function TimerTick(io: seq<Int32>): (r: seq<Int32>)
    requires |io| == IO_SLOTS
    ensures |r| == IO_SLOTS
    ensures forall k | 0 <= k < IO_SLOTS && k != TIMERCURRENT && k != IRQ0STATUS :: r[k] == io[k]
    ensures r[IRQ0STATUS] == io[IRQ0STATUS] || (r[IRQ0STATUS] == 1 && r[TIMERCURRENT] == 0)
  {
    var current := if Bit0(io[TIMERENABLE]) == 1 then Wrap32(io[TIMERCURRENT] as int + 1) else io[TIMERCURRENT];
    if current == io[TIMERMAX] then io[TIMERCURRENT := 0][IRQ0STATUS := 1]
    else io[TIMERCURRENT := current]
  }

  function TimerTicks(io: seq<Int32>, n: nat): (r: seq<Int32>)
    requires |io| == IO_SLOTS
    ensures |r| == IO_SLOTS
  {
    if n == 0 then io else TimerTick(TimerTicks(io, n - 1))
  }

  /** An enabled timer started at 0 with timermax = N >= 1 counts 1, 2, ...
      for N - 1 ticks without raising irq0status, and on tick N is back at 0
      with irq0status set. */
  lemma {:induction false} TimerPeriod(io: seq<Int32>, n: nat, k: nat)
    requires |io| == IO_SLOTS
    requires Bit0(io[TIMERENABLE]) == 1 && io[TIMERCURRENT] == 0 && io[TIMERMAX] == n && n >= 1
    requires k <= n
    ensures var r := TimerTicks(io, k);
            && (k < n ==> r == io[TIMERCURRENT := k])
            && (k == n ==> r == io[IRQ0STATUS := 1])
  {
    if k > 0 {
      TimerPeriod(io, n, k - 1);
      var p := TimerTicks(io, k - 1);
      assert p == io[TIMERCURRENT := k - 1];
      if k == n {
        assert TimerTick(p) == io[IRQ0STATUS := 1];
      }
    }
  }

  /** A disabled timer does not count, yet resets and raises irq0status on
      every tick while its count equals timermax. */
  lemma TimerDisabled(io: seq<Int32>)
    requires |io| == IO_SLOTS && Bit0(io[TIMERENABLE]) == 0
    ensures TimerTick(io)[TIMERCURRENT] == (if io[TIMERCURRENT] == io[TIMERMAX] then 0 else io[TIMERCURRENT])
    ensures TimerTick(io)[IRQ0STATUS] == (if io[TIMERCURRENT] == io[TIMERMAX] then 1 else io[IRQ0STATUS])
  {
  }

  // ---------------------------------------------------------------------
  // External interrupt schedule and the combined interrupt line

  /** check_irq2in: when the schedule entry under the cursor equals clks,
      raise irq2status and advance the cursor by one. */
  function Irq2Check(io: seq<Int32>, schedule: seq<Int32>, index: nat): (r: (seq<Int32>, nat))
    requires |io| == IO_SLOTS && index <= |schedule|
    ensures |r.0| == IO_SLOTS && r.1 <= |schedule|
    ensures r.1 == index || r.1 == index + 1
    ensures r.1 == index + 1 <==> index < |schedule| && io[CLKS] == schedule[index]
    ensures r.0 == if r.1 == index then io else io[IRQ2STATUS := 1]
  {
    if index < |schedule| && io[CLKS] == schedule[index] then (io[IRQ2STATUS := 1], index + 1)
    else (io, index)
  }

  /** Interrupt line k (0, 1 or 2) has bit 0 of both its enable and its
      status register set. */
  predicate LineRaised(io: seq<Int32>, k: int)
    requires |io| == IO_SLOTS && 0 <= k < 3
  {
    Bit0(io[IRQ0ENABLE + k]) == 1 && Bit0(io[IRQ0STATUS + k]) == 1
  }

  /** The `irq` of check_interrupts: the three enable-and-status bits or'ed
      together. */
  predicate IrqLine(io: seq<Int32>)
    requires |io| == IO_SLOTS
    ensures IrqLine(io) <==> exists k | 0 <= k < 3 :: LineRaised(io, k)
  {
    LineRaised(io, 0) || LineRaised(io, 1) || LineRaised(io, 2)
  }

  /** The state check_interrupts leaves: the timer ticked, then the schedule checked. */
  function InterruptCheck(io: seq<Int32>, schedule: seq<Int32>, index: nat): (r: (seq<Int32>, nat))
    requires |io| == IO_SLOTS && index <= |schedule|
    ensures |r.0| == IO_SLOTS && r.1 <= |schedule|
  {
    Irq2Check(TimerTick(io), schedule, index)
  }

  /** A scheduled external interrupt is latched in irq2status even when line 2
      is disabled, and then asserts nothing unless another line already does. */
  lemma {:induction false} Irq2LatchedWhileDisabled(io: seq<Int32>, schedule: seq<Int32>, index: nat)
    requires |io| == IO_SLOTS && index < |schedule| && io[CLKS] == schedule[index]
    requires Bit0(io[IRQ2ENABLE]) == 0
    ensures var (r, i) := Irq2Check(io, schedule, index);
            && i == index + 1 && r[IRQ2STATUS] == 1
            && (IrqLine(r) <==> IrqLine(io))
  {
  }

  // ---------------------------------------------------------------------
  // Clock

  /** handle_clock_cycles: increment clks (wrapping) and restart from 0 when
      it reaches 0xFFFFFFFF. */
  function ClockTick(clks: Int32): (r: Int32)
    ensures r != -1
  {
    var c := Wrap32(clks + 1);
    if c == -1 then 0 else c
  }

  /** Read as unsigned, the clock counts modulo 0xFFFFFFFF: it runs through
      0 .. 0xFFFFFFFE and back to 0, never showing 0xFFFFFFFF. */
  lemma ClockCountsModulo(clks: Int32)
    requires clks != -1
    ensures Unsigned32(ClockTick(clks)) == (Unsigned32(clks) + 1) % 0xFFFF_FFFF
  {
    if clks == MAX32 {
      assert Wrap32(clks + 1) == MIN32;
    } else if clks == -2 {
      assert Wrap32(clks + 1) == -1;
    } else if clks < 0 {
      assert Wrap32(clks + 1) == clks + 1;
    } else {
      assert Wrap32(clks + 1) == clks + 1;
    }
  }

  // ---------------------------------------------------------------------
  // Disk controller

  /** handle_disk's latency counter: the call that finds the counter at
      1024 performs the transfer and resets it; every other call counts. */
  function DiskCounterNext(cycles: int): (r: int)
    ensures 0 <= cycles <= DISK_CYCLES ==> r == (cycles + 1) % (DISK_CYCLES + 1)
  {
    if cycles == DISK_CYCLES then 0 else cycles + 1
  }

  function DiskCounterAfter(cycles: int, n: nat): int {
    if n == 0 then cycles else DiskCounterNext(DiskCounterAfter(cycles, n - 1))
  }

  /** Armed with the counter at 0 (by `out` to diskcmd), the first 1024 ticks
      only count, and the tick after them transfers. */
  lemma {:induction false} DiskLatency(n: nat)
    requires n <= DISK_CYCLES
    ensures DiskCounterAfter(0, n) == n
    ensures DiskCounterAfter(0, n) == DISK_CYCLES <==> n == DISK_CYCLES
  {
    if n > 0 {
      DiskLatency(n - 1);
    }
  }

  /** read_sector's watermark: it raises depth to buffer + 129, one past the
      words it copied. */
  function ReadSectorDepth(depth: int, buffer: int): (r: int)
    ensures r >= depth && r >= buffer + SECTOR_WORDS + 1
    ensures r == depth || r == buffer + SECTOR_WORDS + 1
  {
    if buffer + SECTOR_WORDS + 1 > depth then buffer + SECTOR_WORDS + 1 else depth
  }

  /** write_sector's watermark after its loop has handled words 0 .. i - 1 of
      the sector starting at offset b: each word whose offset exceeds the
      watermark sets it to that offset plus one, so it lands on b + i or on
      b + i - 1 by the parity of the first word that moved it. */
  function SectorOffsetAfter(d: int, b: int, i: nat): int {
    if i == 0 || d >= b + i - 1 then d
    else
      var first := if d < b then 0 else d - b + 1;
      if (i - 1 - first) % 2 == 0 then b + i else b + i - 1
  }

  /** One more iteration of write_sector's loop. */
  lemma SectorOffsetStep(d: int, b: int, i: nat)
    ensures var w := SectorOffsetAfter(d, b, i);
            SectorOffsetAfter(d, b, i + 1) == if b + i > w then b + i + 1 else w
  {
  }

  /** The watermark write_sector leaves for sector `sector`. */
  function SectorWriteOffset(d: int, sector: int): (r: int)
    ensures r >= d && r >= sector * SECTOR_WORDS + SECTOR_WORDS - 1
    ensures r <= Max(d, sector * SECTOR_WORDS + SECTOR_WORDS)
  {
    SectorOffsetAfter(d, sector * SECTOR_WORDS, SECTOR_WORDS)
  }

  /** The watermark never decreases, reaches at least the sector's last word,
      and covers the whole sector only when the words it skipped have the
      right parity: from below the sector it stops one short. */
  lemma {:induction false} SectorWriteOffsetBounds(d: int, sector: int)
    ensures var b := sector * SECTOR_WORDS;
            var r := SectorWriteOffset(d, sector);
            && r >= d
            && r >= b + SECTOR_WORDS - 1
            && (d >= b + SECTOR_WORDS - 1 ==> r == d)
            && (d < b ==> r == b + SECTOR_WORDS - 1)
            && (b <= d < b + SECTOR_WORDS - 1 ==> r == (if (d - b) % 2 == 0 then b + SECTOR_WORDS else b + SECTOR_WORDS - 1))
  {
  }

  // ---------------------------------------------------------------------
  // Reported cycle count

  /** write_to_cycles: the clock plus the disk cycles still pending at halt,
      added as C ints (so wrapping past MAX32). */
  function CyclesReported(clks: Int32, diskStatus: Int32, diskCycles: int): (r: Int32)
    requires 0 <= diskCycles <= DISK_CYCLES
    ensures r == clks <==> diskStatus == 0 || diskCycles == DISK_CYCLES
    ensures diskStatus != 0 ==> (r as int + diskCycles - clks - DISK_CYCLES) % TWO32 == 0
    ensures clks <= MAX32 - DISK_CYCLES ==>
              r >= clks && (diskStatus != 0 ==> r as int + diskCycles == clks as int + DISK_CYCLES)
  {
    var remain := if diskStatus != 0 then DISK_CYCLES - diskCycles else 0;
    Wrap32(clks as int + remain)
  }

  /** With the disk busy and the clock at MAX32, the reported figure wraps
      to a negative number, as the C addition does. */
  lemma CyclesReportedWraps()
    ensures CyclesReported(MAX32, 1, 0) == MIN32 + DISK_CYCLES - 1
  {
  }
}
