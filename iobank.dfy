// The memory-mapped I/O register bank: slot numbers and the names the
// hardware-register trace prints for them (find_io_reg, sim.c:1293-1382).

module IoBank {

  const IRQ0ENABLE: int := 0
  const IRQ1ENABLE: int := 1
  const IRQ2ENABLE: int := 2
  const IRQ0STATUS: int := 3
  const IRQ1STATUS: int := 4
  const IRQ2STATUS: int := 5
  const IRQHANDLER: int := 6
  const IRQRETURN: int := 7
  const CLKS: int := 8
  const LEDS: int := 9
  const DISPLAY7SEG: int := 10
  const TIMERENABLE: int := 11
  const TIMERCURRENT: int := 12
  const TIMERMAX: int := 13
  const DISKCMD: int := 14
  const DISKSECTOR: int := 15
  const DISKBUFFER: int := 16
  const DISKSTATUS: int := 17
  const MONITORADDR: int := 20
  const MONITORDATA: int := 21
  const MONITORCMD: int := 22

  /** The 22 slots the source declares, plus the monitor command slot 22
      that `in` and `out` address one past them. */
  const IO_SLOTS: nat := 23

  /** Slots 18 and 19 are reserved and have no name. */
  predicate IsNamed(n: int) {
    (0 <= n <= DISKSTATUS) || (MONITORADDR <= n <= MONITORCMD)
  }

  /** The names in slot order ("" for the reserved slots 18 and 19). */
  const IoNames: seq<string> := [
    "irq0enable", "irq1enable", "irq2enable", "irq0status", "irq1status", "irq2status",
    "irqhandler", "irqreturn", "clks", "leds", "display7seg", "timerenable",
    "timercurrent", "timermax", "diskcmd", "disksector", "diskbuffer", "diskstatus",
    "", "", "monitoraddr", "monitordata", "monitorcmd"]

  /** find_io_reg: the name of slot `n`, or "" for a slot without one. */
  function IoRegName(n: int): (name: string)
    ensures name != "" <==> IsNamed(n)
    ensures 0 <= n < IO_SLOTS ==> name == IoNames[n]
  {
    if n == 0 then "irq0enable"
    else if n == 1 then "irq1enable"
    else if n == 2 then "irq2enable"
    else if n == 3 then "irq0status"
    else if n == 4 then "irq1status"
    else if n == 5 then "irq2status"
    else if n == 6 then "irqhandler"
    else if n == 7 then "irqreturn"
    else if n == 8 then "clks"
    else if n == 9 then "leds"
    else if n == 10 then "display7seg"
    else if n == 11 then "timerenable"
    else if n == 12 then "timercurrent"
    else if n == 13 then "timermax"
    else if n == 14 then "diskcmd"
    else if n == 15 then "disksector"
    else if n == 16 then "diskbuffer"
    else if n == 17 then "diskstatus"
    else if n == 20 then "monitoraddr"
    else if n == 21 then "monitordata"
    else if n == 22 then "monitorcmd"
    else ""
  }

  /** No two named slots share a name, so a trace line names its slot. */
  lemma IoRegNameInjective(n: int, m: int)
    requires IsNamed(n) && IsNamed(m) && IoRegName(n) == IoRegName(m)
    ensures n == m
  {
    var a, b := IoRegName(n), IoRegName(m);
    assert a[0] == b[0];
    assert |a| == |b|;
  }
}
