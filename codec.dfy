// The fixed-width instruction word shared by the two tools: the assembler
// prints the seven fields of an instruction as 12 hexadecimal digits
// (`%02X%01X%01X%01X%01X%03X%03X`, asm.c:320) and the simulator slices those
// digits back into fields (decode_instruction, sim.c:566-602).

module Codec {
  import opened Words

  /** One instruction line of the instruction image, without its newline. */
  type Word = string

  const WORD_DIGITS: nat := 12

  /** The decoded fields: opcode, four register selectors, two immediates. */
  datatype Fields = Fields(opcode: int, rd: int, rs: int, rt: int, rm: int, imm1: int, imm2: int)

  /** A line the decoder can read: at least 12 hexadecimal digits (anything
      after them, such as the line terminator, is ignored). */
  predicate WellFormed(w: Word) {
    |w| >= WORD_DIGITS && AllHex(w[..WORD_DIGITS])
  }

  /** Fields the 12-digit format can carry unchanged. */
  predicate Encodable(f: Fields) {
    && 0 <= f.opcode < 256
    && 0 <= f.rd < 16 && 0 <= f.rs < 16 && 0 <= f.rt < 16 && 0 <= f.rm < 16
    && -2048 <= f.imm1 < 2048 && -2048 <= f.imm2 < 2048
  }

  /** Sign extension of a 3-digit field from 12-bit two's complement. */
  function Sext12(v: nat): (r: int)
    requires v < 4096
    ensures -2048 <= r < 2048 && Mask12(r) == v
    ensures r >= 0 <==> v < 0x800
  {
    if v >= 0x800 then v - 0x1000 else v
  }

  lemma SextMask(x: int)
    requires -2048 <= x < 2048
    ensures Sext12(Mask12(x)) == x
  {
    if x < 0 {
      assert Mask12(x) == x + 4096;
    }
  }

  /** decode_instruction: opcode from digits 0-1, rd, rs, rt, rm from digits
      2, 3, 4, 5, the immediates from digits 6-8 and 9-11. */
  function Decode(w: Word): (f: Fields)
    requires WellFormed(w)
    ensures 0 <= f.opcode < 256
    ensures 0 <= f.rd < 16 && 0 <= f.rs < 16 && 0 <= f.rt < 16 && 0 <= f.rm < 16
    ensures -2048 <= f.imm1 < 2048 && -2048 <= f.imm2 < 2048
    ensures Mask12(f.imm1) == HexValue(w[6..9]) && Mask12(f.imm2) == HexValue(w[9..12])
    ensures f.imm1 < 0 <==> HexValue(w[6..9]) >= 0x800
    ensures f.imm2 < 0 <==> HexValue(w[9..12]) >= 0x800
  {
    Fields(HexValue(w[0..2]), HexValue(w[2..3]), HexValue(w[3..4]), HexValue(w[4..5]),
           HexValue(w[5..6]), Sext12(HexValue(w[6..9])), Sext12(HexValue(w[9..12])))
  }

  /** `%0wX` of a C int argument: the argument is printed as unsigned. */
  function Field(x: int, w: nat): string
    requires w >= 1
  {
    HexMin(x % TWO32, w)
  }

  /** The line parse_line_imemin prints (asm.c:320): immediates masked with
      0xFFF, the other fields printed as they are, so that an out-of-range
      opcode or register (the -1 of an unknown name) widens the line. */
  function Encode(f: Fields): (w: Word)
    ensures AllUpperHex(w)
  {
    Field(f.opcode, 2) + Field(f.rd, 1) + Field(f.rs, 1) + Field(f.rt, 1) + Field(f.rm, 1)
    + Hex(Mask12(f.imm1), 3) + Hex(Mask12(f.imm2), 3)
  }

  lemma FieldLength(x: int, w: nat)
    requires w >= 1
    ensures |Field(x, w)| >= w
    ensures |Field(x, w)| == w <==> x % TWO32 < Pow16(w)
  {
    if x % TWO32 < Pow16(w) {
      HexMinFits(x % TWO32, w);
    } else {
      HexMinWidens(x % TWO32, w);
    }
  }

  /** The line is 12 digits wide exactly when the opcode fits two digits and
      every register selector one. */
  lemma EncodeWidth(f: Fields)
    ensures |Encode(f)| >= WORD_DIGITS
    ensures |Encode(f)| == WORD_DIGITS <==>
              0 <= f.opcode % TWO32 < 256 && 0 <= f.rd % TWO32 < 16 && 0 <= f.rs % TWO32 < 16
              && 0 <= f.rt % TWO32 < 16 && 0 <= f.rm % TWO32 < 16
  {
    FieldLength(f.opcode, 2);
    FieldLength(f.rd, 1);
    FieldLength(f.rs, 1);
    FieldLength(f.rt, 1);
    FieldLength(f.rm, 1);
  }

  /** On fields within the format, the printed digits are exactly the fields'. */
  lemma {:induction false} EncodeDigits(f: Fields)
    requires Encodable(f)
    ensures var w := Encode(f);
            && |w| == WORD_DIGITS
            && w[0..2] == Hex(f.opcode, 2) && w[2..3] == Hex(f.rd, 1) && w[3..4] == Hex(f.rs, 1)
            && w[4..5] == Hex(f.rt, 1) && w[5..6] == Hex(f.rm, 1)
            && w[6..9] == Hex(Mask12(f.imm1), 3) && w[9..12] == Hex(Mask12(f.imm2), 3)
  {
    FieldFits(f.opcode, 2);
    FieldFits(f.rd, 1);
    FieldFits(f.rs, 1);
    FieldFits(f.rt, 1);
    FieldFits(f.rm, 1);
    SliceSeven(Hex(f.opcode, 2), Hex(f.rd, 1), Hex(f.rs, 1), Hex(f.rt, 1), Hex(f.rm, 1),
               Hex(Mask12(f.imm1), 3), Hex(Mask12(f.imm2), 3));
  }

  lemma FieldFits(x: int, w: nat)
    requires w >= 1 && 0 <= x < Pow16(w) && x < 256
    ensures Field(x, w) == Hex(x, w)
  {
    HexMinFits(x, w);
  }

  lemma SliceSeven(a: string, b: string, c: string, d: string, e: string, g: string, h: string)
    requires |a| == 2 && |b| == 1 && |c| == 1 && |d| == 1 && |e| == 1 && |g| == 3 && |h| == 3
    ensures var w := a + b + c + d + e + g + h;
            && |w| == 12
            && w[0..2] == a && w[2..3] == b && w[3..4] == c && w[4..5] == d && w[5..6] == e
            && w[6..9] == g && w[9..12] == h
  {
  }

  /** Assembling then decoding gives back every field (asm.c:320 against
      sim.c:566-602). */
  lemma {:induction false} DecodeEncode(f: Fields)
    requires Encodable(f)
    ensures WellFormed(Encode(f)) && |Encode(f)| == WORD_DIGITS && Decode(Encode(f)) == f
  {
    var w := Encode(f);
    EncodeDigits(f);
    assert WellFormed(w) by { assert w[..WORD_DIGITS] == w; }
    var g := Decode(w);
    assert g.opcode == f.opcode by { HexRoundTrip(f.opcode, 2); }
    assert g.rd == f.rd by { HexRoundTrip(f.rd, 1); }
    assert g.rs == f.rs by { HexRoundTrip(f.rs, 1); }
    assert g.rt == f.rt by { HexRoundTrip(f.rt, 1); }
    assert g.rm == f.rm by { HexRoundTrip(f.rm, 1); }
    assert g.imm1 == f.imm1 by { HexRoundTrip(Mask12(f.imm1), 3); SextMask(f.imm1); }
    assert g.imm2 == f.imm2 by { HexRoundTrip(Mask12(f.imm2), 3); SextMask(f.imm2); }
  }

  /** An immediate outside -2048..2047 comes back as its 12-bit residue, so
      a label address up to 4095 survives as a branch or jump target once
      the simulator masks it with 0xfff again. */
  lemma {:induction false} DecodeEncodeImmediate(f: Fields)
    requires Encodable(f.(imm1 := 0, imm2 := 0))
    ensures WellFormed(Encode(f)) && |Encode(f)| == WORD_DIGITS
    ensures Decode(Encode(f)) == f.(imm1 := Sext12(Mask12(f.imm1)), imm2 := Sext12(Mask12(f.imm2)))
    ensures 0 <= f.imm1 < 4096 ==> Mask12(Decode(Encode(f)).imm1) == f.imm1
  {
    var g := f.(imm1 := Sext12(Mask12(f.imm1)), imm2 := Sext12(Mask12(f.imm2)));
    assert Encode(g) == Encode(f) by {
      assert Mask12(g.imm1) == Mask12(f.imm1) && Mask12(g.imm2) == Mask12(f.imm2);
    }
    DecodeEncode(g);
  }

  /** Decoding then printing gives back the line, when its digits are in
      upper case as the assembler prints them. */
  lemma {:induction false} EncodeDecode(w: Word)
    requires |w| == WORD_DIGITS && AllUpperHex(w)
    ensures WellFormed(w) && Encode(Decode(w)) == w
  {
    assert w[..WORD_DIGITS] == w;
    var f := Decode(w);
    HexOfValue(w[0..2]);
    HexOfValue(w[2..3]);
    HexOfValue(w[3..4]);
    HexOfValue(w[4..5]);
    HexOfValue(w[5..6]);
    HexOfValue(w[6..9]);
    HexOfValue(w[9..12]);
    EncodeDigits(f);
    assert w == w[0..2] + w[2..3] + w[3..4] + w[4..5] + w[5..6] + w[6..9] + w[9..12];
  }
}
