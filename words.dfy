// Machine words shared by the assembler and the simulator: 32-bit signed
// integers with explicit two's-complement wrap-around, bit operations, and
// the hexadecimal text both tools use for their images.

module Words {

  const TWO32: int := 0x1_0000_0000
  const MIN32: int := -0x8000_0000
  const MAX32: int := 0x7FFF_FFFF

  /** The larger of two values, as the watermark updates compute it. */
  function Max(a: int, b: int): (m: int)
    ensures m >= a && m >= b && (m == a || m == b)
  {
    if a < b then b else a
  }

  function Min(a: int, b: int): (m: int)
    ensures m <= a && m <= b && (m == a || m == b)
  {
    if a < b then a else b
  }

  /** A C `int` on the target: 32-bit two's complement. */
  type Int32 = x: int | -0x8000_0000 <= x < 0x8000_0000

  /** The value of the 32-bit pattern `x mod 2^32` read as a signed int
      (what the C code gets on overflow, which this model fixes as wrapping). */
  function Wrap32(x: int): (r: Int32)
    ensures (r - x) % TWO32 == 0
    ensures MIN32 <= x <= MAX32 ==> r == x
  {
    var m := x % TWO32;
    if m >= 0x8000_0000 then m - TWO32 else m
  }

  /** The same bit pattern read as an unsigned 32-bit value (`(unsigned int)x`). */
  function Unsigned32(x: Int32): (r: nat)
    ensures r < TWO32 && (r - x) % TWO32 == 0
    ensures x >= 0 ==> r == x
  {
    if x < 0 then x + TWO32 else x
  }

  lemma {:induction false} WrapUnsigned(x: Int32)
    ensures Wrap32(Unsigned32(x)) == x
  {
  }

  function Pow2(n: nat): (r: nat)
    ensures r >= 1
  {
    if n == 0 then 1 else 2 * Pow2(n - 1)
  }

  function ToBits(x: Int32): bv32 {
    Unsigned32(x) as bv32
  }

  function FromBits(b: bv32): Int32 {
    Wrap32(b as int)
  }

  /** `x & 1` on a C int: bit 0, 0 or 1 also for negative values. */
  function Bit0(x: Int32): (r: int)
    ensures r == 0 || r == 1
    ensures (r - x) % 2 == 0
  {
    x % 2
  }

  /** `x & 0xfff` on a C int: the low 12 bits. */
  function Mask12(x: int): (r: int)
    ensures 0 <= r < 4096 && (r - x) % 4096 == 0
  {
    x % 4096
  }

  // ---------------------------------------------------------------------
  // Hexadecimal digits and fixed-width hexadecimal text

  predicate IsHexDigit(c: char) {
    ('0' <= c <= '9') || ('a' <= c <= 'f') || ('A' <= c <= 'F')
  }

  predicate IsUpperHexDigit(c: char) {
    ('0' <= c <= '9') || ('A' <= c <= 'F')
  }

  function HexDigitValue(c: char): (d: nat)
    requires IsHexDigit(c)
    ensures d < 16
  {
    if '0' <= c <= '9' then c as int - '0' as int
    else if 'a' <= c <= 'f' then c as int - 'a' as int + 10
    else c as int - 'A' as int + 10
  }

  /** The upper-case digit printed by `%X`. */
  function HexDigit(d: nat): (c: char)
    requires d < 16
    ensures IsUpperHexDigit(c) && HexDigitValue(c) == d
  {
    if d < 10 then ('0' as int + d) as char else ('A' as int + d - 10) as char
  }

  lemma {:induction false} HexDigitOfValue(c: char)
    requires IsUpperHexDigit(c)
    ensures HexDigit(HexDigitValue(c)) == c
  {
  }

  predicate AllHex(s: string) {
    forall i :: 0 <= i < |s| ==> IsHexDigit(s[i])
  }

  predicate AllUpperHex(s: string) {
    forall i :: 0 <= i < |s| ==> IsUpperHexDigit(s[i])
  }

  function Pow16(w: nat): (r: nat)
    ensures r >= 1
  {
    if w == 0 then 1 else 16 * Pow16(w - 1)
  }

  /** Value of a string of hexadecimal digits, most significant first
      (what `strtol(s, NULL, 16)` returns on such a string). */
  function HexValue(s: string): (v: nat)
    requires AllHex(s)
    ensures v < Pow16(|s|)
  {
    if s == [] then 0
    else HexValue(s[..|s| - 1]) * 16 + HexDigitValue(s[|s| - 1])
  }

  /** Exactly `w` upper-case hexadecimal digits of `n mod 16^w`. */
  function Hex(n: nat, w: nat): (s: string)
    ensures |s| == w && AllUpperHex(s) && AllHex(s)
  {
    if w == 0 then [] else Hex(n / 16, w - 1) + [HexDigit(n % 16)]
  }

  /** What `printf("%0wX", n)` prints: `n` in upper-case hexadecimal
      without leading zeros, padded with zeros to at least `w` digits. */
  function HexMin(n: nat, w: nat): (s: string)
    requires w >= 1
    ensures |s| >= 1 && AllUpperHex(s) && AllHex(s)
    decreases n + w
  {
    if n < 16 && w == 1 then [HexDigit(n)]
    else HexMin(n / 16, if w > 1 then w - 1 else 1) + [HexDigit(n % 16)]
  }

  lemma {:induction false} HexRoundTrip(n: nat, w: nat)
    requires n < Pow16(w)
    ensures HexValue(Hex(n, w)) == n
  {
    if w > 0 {
      var s := Hex(n, w);
      assert s[..w - 1] == Hex(n / 16, w - 1);
      HexRoundTrip(n / 16, w - 1);
    }
  }

  lemma {:induction false} HexOfValue(s: string)
    requires AllUpperHex(s)
    ensures AllHex(s) && Hex(HexValue(s), |s|) == s
  {
    if s != [] {
      var p := s[..|s| - 1];
      assert AllUpperHex(p);
      HexOfValue(p);
      var v := HexValue(s);
      assert v / 16 == HexValue(p) && v % 16 == HexDigitValue(s[|s| - 1]);
      HexDigitOfValue(s[|s| - 1]);
      assert s == p + [s[|s| - 1]];
    }
  }

  /** Padding is the only thing `%0wX` adds when the value fits in `w` digits. */
  lemma {:induction false} HexMinFits(n: nat, w: nat)
    requires w >= 1 && n < Pow16(w)
    ensures HexMin(n, w) == Hex(n, w)
    decreases w
  {
    if w > 1 {
      HexMinFits(n / 16, w - 1);
    } else {
      assert n < 16;
      assert Hex(n / 16, 0) == [];
    }
  }

  /** A value too wide for `w` digits widens the printed field. */
  lemma {:induction false} HexMinWidens(n: nat, w: nat)
    requires w >= 1 && n >= Pow16(w)
    ensures |HexMin(n, w)| > w
    decreases w
  {
    if w > 1 {
      HexMinWidens(n / 16, w - 1);
    } else {
      assert n >= 16;
    }
  }
}
