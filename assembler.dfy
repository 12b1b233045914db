// The assembler's two passes (asm.c): first_pass records every label with
// the instruction address it stands for; second_pass emits one instruction
// word per instruction line (parse_line_imemin) and collects the `.word`
// directives into a data image (set_memory) that dmemin_write prints up to
// its depth. The input is the sequence of token lines; the outputs are the
// lines of imemin.txt and dmemin.txt.

module Assembler {
  import opened Words
  import opened Codec
  import opened AsmParse

  datatype Option<T> = None | Some(value: T)

  const MEM_DEPTH: nat := 4096
  const MAX_WORDS: nat := 7

  predicate AllTokens(lines: seq<Line>) {
    forall i | 0 <= i < |lines| :: Tokens(lines[i])
  }

  // ---------------------------------------------------------------------
  // first_pass

  /** Where first_pass's scan of a first token stops: at its first '#' or
      ':', or at its end. */
  function ScanEnd(t: string): (k: nat)
    ensures k <= |t|
    ensures forall j | 0 <= j < k :: t[j] != '#' && t[j] != ':'
    ensures k < |t| ==> t[k] == '#' || t[k] == ':'
  {
    if t == [] || t[0] == '#' || t[0] == ':' then 0 else 1 + ScanEnd(t[1..])
  }

  /** The label a first token defines: the text before its first ':',
      unless a '#' comes before that ':'. */
  function DefinedLabel(t: string): (r: Option<string>)
    ensures r.Some? ==> && |r.value| < |t| && t[..|r.value|] == r.value && t[|r.value|] == ':'
                        && ':' !in r.value && '#' !in r.value
    ensures r.None? <==> forall j | 0 <= j < |t| && t[j] == ':' :: '#' in t[..j]
  {
    var k := ScanEnd(t);
    if k < |t| && t[k] == ':' then Some(t[..k]) else None
  }

  /** first_pass's character loop over the first token. */
  method ScanLabel(t: string) returns (found: Option<string>)
    ensures found == DefinedLabel(t)
  {
    var k := 0;
    while k < |t|
      invariant 0 <= k <= |t|
      invariant forall j | 0 <= j < k :: t[j] != '#' && t[j] != ':'
    {
      if t[k] == '#' {
        return None;
      }
      if t[k] == ':' {
        return Some(t[..k]);
      }
      k := k + 1;
    }
    return None;
  }

  /** Lines first_pass passes over: no token, or a first token starting a
      comment or a directive. */
  predicate Skipped(line: Line)
    requires Tokens(line)
  {
    |line| == 0 || line[0][0] == '#' || line[0][0] == '.'
  }

  function LineLabel(line: Line): Option<string>
    requires Tokens(line)
  {
    if Skipped(line) then None else DefinedLabel(line[0])
  }

  /** add_line: the number of instruction addresses a line takes. A label
      line takes one only when its second token is an instruction. */
  function RowsOf(line: Line): (n: nat)
    requires Tokens(line)
    ensures n <= 1
  {
    if Skipped(line) then 0
    else if DefinedLabel(line[0]).Some? then (if StatusAt(line, 1) == 1 then 1 else 0)
    else 1
  }

  /** row_count after the given lines. */
  function RowCount(lines: seq<Line>): (n: nat)
    requires AllTokens(lines)
    ensures n <= |lines|
  {
    if lines == [] then 0 else RowCount(lines[..|lines| - 1]) + RowsOf(lines[|lines| - 1])
  }

  /** The label list after the given lines, in source order. */
  function LabelsOf(lines: seq<Line>): (labels: seq<Label>)
    requires AllTokens(lines)
    ensures |labels| <= |lines|
  {
    if lines == [] then []
    else
      var prefix := lines[..|lines| - 1];
      match LineLabel(lines[|lines| - 1])
      case Some(name) => LabelsOf(prefix) + [Label(name, RowCount(prefix))]
      case None => LabelsOf(prefix)
  }

  /** first_pass: one walk over the lines, appending each label with the
      current row count and advancing the row count by add_line. */
  method FirstPass(lines: seq<Line>) returns (labels: seq<Label>, rowCount: nat)
    requires AllTokens(lines)
    ensures labels == LabelsOf(lines) && rowCount == RowCount(lines)
  {
    labels, rowCount := [], 0;
    var i := 0;
    while i < |lines|
      invariant 0 <= i <= |lines|
      invariant labels == LabelsOf(lines[..i]) && rowCount == RowCount(lines[..i])
    {
      var line := lines[i];
      assert lines[..i + 1][..i] == lines[..i];
      if |line| == 0 || line[0][0] == '#' || line[0][0] == '.' {
        i := i + 1;
        continue;
      }
      var addLine := 1;
      var defined := ScanLabel(line[0]);
      if defined.Some? {
        labels := labels + [Label(defined.value, rowCount)];
        var status := LineStatus(line, 1);
        addLine := if status == 1 then 1 else 0;
      }
      rowCount := rowCount + addLine;
      i := i + 1;
    }
    assert lines[..i] == lines;
  }

  lemma {:induction false} LabelsOfPrefix(lines: seq<Line>, k: nat)
    requires AllTokens(lines) && k <= |lines|
    ensures LabelsOf(lines[..k]) <= LabelsOf(lines)
    ensures RowCount(lines[..k]) <= RowCount(lines)
    decreases |lines|
  {
    if k < |lines| {
      var p := lines[..|lines| - 1];
      assert lines[..k] == p[..k];
      LabelsOfPrefix(p, k);
    } else {
      assert lines[..k] == lines;
    }
  }

  /** The label list is in source order: addresses never decrease along it
      and none passes the final row count. */
  lemma {:induction false} LabelsOrdered(lines: seq<Line>)
    requires AllTokens(lines)
    ensures forall j, k | 0 <= j < k < |LabelsOf(lines)| :: LabelsOf(lines)[j].address <= LabelsOf(lines)[k].address
    ensures forall j | 0 <= j < |LabelsOf(lines)| :: 0 <= LabelsOf(lines)[j].address <= RowCount(lines)
  {
    if lines != [] {
      var p := lines[..|lines| - 1];
      LabelsOrdered(p);
      var lp, ls := LabelsOf(p), LabelsOf(lines);
      assert RowCount(lines) == RowCount(p) + RowsOf(lines[|lines| - 1]);
      match LineLabel(lines[|lines| - 1])
      case Some(name) =>
        assert ls == lp + [Label(name, RowCount(p))];
      case None =>
        assert ls == lp;
    }
  }

  // ---------------------------------------------------------------------
  // second_pass

  /** Where second_pass starts collecting words: after a label token. */
  function Start(line: Line): nat
    requires Tokens(line)
  {
    if StatusAt(line, 0) == 3 then 1 else 0
  }

  /** The class second_pass acts on: a label line is classified by its
      second token. */
  function ClassOf(line: Line): (s: int)
    requires Tokens(line)
    ensures 0 <= s <= 3
  {
    if StatusAt(line, 0) == 3 then StatusAt(line, 1) else StatusAt(line, 0)
  }

  /** The words second_pass collects: at most seven tokens from Start on. */
  function WordsOf(line: Line): (ws: seq<string>)
    requires Tokens(line)
  {
    line[Start(line)..Min(|line|, Start(line) + MAX_WORDS)]
  }

  /** A line the C code handles without reading a word it did not collect
      in this line: an instruction has all seven words, a directive its
      address and data, with the address inside the data memory. */
  predicate Assemblable(line: Line)
    requires Tokens(line)
  {
    && (ClassOf(line) == 1 ==> |line| >= Start(line) + MAX_WORDS)
    && (ClassOf(line) == 2 ==> |line| >= Start(line) + 3 && 0 <= StrtolAuto(line[Start(line) + 1]) < MEM_DEPTH)
  }

  predicate AllAssemblable(lines: seq<Line>)
    requires AllTokens(lines)
  {
    forall i | 0 <= i < |lines| :: Assemblable(lines[i])
  }

  /** The fields parse_line_imemin reads from the seven words. */
  function InstructionFields(words: seq<string>, labels: seq<Label>): Fields
    requires |words| >= MAX_WORDS && |words[5]| > 0 && |words[6]| > 0
  {
    Fields(ParseOpcode(words[0]), ParseReg(words[1]), ParseReg(words[2]), ParseReg(words[3]),
           ParseReg(words[4]), ImmValue(words[5], labels), ImmValue(words[6], labels))
  }

  /** The imemin.txt line a source line yields, if any. */
  function LineWords(line: Line, labels: seq<Label>): (ws: seq<Word>)
    requires Tokens(line) && Assemblable(line)
    ensures |ws| == if ClassOf(line) == 1 then 1 else 0
  {
    if ClassOf(line) == 1 then [Encode(InstructionFields(WordsOf(line), labels))] else []
  }

  /** The lines of imemin.txt for the given source lines. */
  function Program(lines: seq<Line>, labels: seq<Label>): (words: seq<Word>)
    requires AllTokens(lines) && AllAssemblable(lines)
    ensures |words| <= |lines|
  {
    if lines == [] then []
    else Program(lines[..|lines| - 1], labels) + LineWords(lines[|lines| - 1], labels)
  }

  /** The (address, data) pair a directive line yields, if any. */
  function LineWrites(line: Line): (ws: seq<(int, Int32)>)
    requires Tokens(line) && Assemblable(line)
    ensures |ws| <= 1 && forall i | 0 <= i < |ws| :: 0 <= ws[i].0 < MEM_DEPTH
  {
    var words := WordsOf(line);
    if ClassOf(line) == 2 then [(StrtolAuto(words[1]), Wrap32(StrtolAuto(words[2])))] else []
  }

  /** The (address, data) pair of every directive, in source order. */
  function DataWrites(lines: seq<Line>): (ws: seq<(int, Int32)>)
    requires AllTokens(lines) && AllAssemblable(lines)
    ensures forall i | 0 <= i < |ws| :: 0 <= ws[i].0 < MEM_DEPTH
  {
    if lines == [] then []
    else DataWrites(lines[..|lines| - 1]) + LineWrites(lines[|lines| - 1])
  }

  /** dmemin_depth: one past the highest address written, 0 when none is. */
  function DataDepth(writes: seq<(int, Int32)>): (d: nat)
    ensures forall i | 0 <= i < |writes| :: writes[i].0 < d
    ensures d == 0 || exists i | 0 <= i < |writes| :: writes[i].0 + 1 == d
  {
    if writes == [] then 0
    else Max(DataDepth(writes[..|writes| - 1]), writes[|writes| - 1].0 + 1)
  }

  /** The data word at address `a`: the last directive for it wins; an
      address no directive names holds 0. */
  function ImageAt(writes: seq<(int, Int32)>, a: int): Int32 {
    if writes == [] then 0
    else if writes[|writes| - 1].0 == a then writes[|writes| - 1].1
    else ImageAt(writes[..|writes| - 1], a)
  }

  lemma {:induction false} ImageAtLastWrite(writes: seq<(int, Int32)>, a: int, i: nat)
    requires i < |writes| && writes[i].0 == a
    requires forall j | i < j < |writes| :: writes[j].0 != a
    ensures ImageAt(writes, a) == writes[i].1
  {
    if i < |writes| - 1 {
      ImageAtLastWrite(writes[..|writes| - 1], a, i);
    }
  }

  lemma {:induction false} ImageAtUnwritten(writes: seq<(int, Int32)>, a: int)
    requires forall j | 0 <= j < |writes| :: writes[j].0 != a
    ensures ImageAt(writes, a) == 0
  {
    if writes != [] {
      ImageAtUnwritten(writes[..|writes| - 1], a);
    }
  }

  /** The whole data memory the writes leave. */
  function Image(writes: seq<(int, Int32)>): (m: seq<Int32>)
    ensures |m| == MEM_DEPTH
  {
    seq(MEM_DEPTH, a => ImageAt(writes, a))
  }

  /** One more directive stores its word at its address and raises the
      depth to cover it. */
  lemma ImageAppend(writes: seq<(int, Int32)>, a: int, d: Int32)
    requires 0 <= a < MEM_DEPTH
    ensures Image(writes + [(a, d)]) == Image(writes)[a := d]
    ensures DataDepth(writes + [(a, d)]) == Max(DataDepth(writes), a + 1)
  {
    assert (writes + [(a, d)])[..|writes|] == writes;
  }

  /** One line of dmemin.txt: `%08X` of the word as unsigned. */
  function DataWord(x: Int32): (s: string)
    ensures |s| == 8 && AllUpperHex(s)
  {
    Hex(Unsigned32(x), 8)
  }

  /** The lines of dmemin.txt for the given source lines. */
  function DataImage(lines: seq<Line>): (image: seq<string>)
    requires AllTokens(lines) && AllAssemblable(lines)
    ensures |image| <= MEM_DEPTH
    ensures forall a | 0 <= a < |image| :: |image[a]| == 8 && AllUpperHex(image[a])
  {
    var writes := DataWrites(lines);
    seq(DataDepth(writes), a => DataWord(ImageAt(writes, a)))
  }

  /** second_pass's word loop: up to seven tokens from `start`. */
  method CollectWords(line: Line, start: nat) returns (words: seq<string>)
    requires start <= |line|
    ensures words == line[start..Min(|line|, start + MAX_WORDS)]
  {
    words := [];
    var k := start;
    while k < |line| && |words| < MAX_WORDS
      invariant start <= k <= |line| && |words| == k - start <= MAX_WORDS
      invariant words == line[start..k]
    {
      words := words + [line[k]];
      k := k + 1;
    }
  }

  /** parse_line_imemin: one line of imemin.txt. */
  method ParseLineImemin(words: seq<string>, labels: seq<Label>) returns (w: Word)
    requires |words| >= MAX_WORDS && |words[5]| > 0 && |words[6]| > 0
    ensures w == Encode(InstructionFields(words, labels))
  {
    var imm1 := ParseImm(words[5], labels);
    var imm2 := ParseImm(words[6], labels);
    var f := Fields(ParseOpcode(words[0]), ParseReg(words[1]), ParseReg(words[2]), ParseReg(words[3]),
                    ParseReg(words[4]), imm1, imm2);
    w := Encode(f);
  }

  /** set_memory: store the directive's data at its address and raise the
      depth to cover it. */
  method SetMemory(words: seq<string>, data: array<Int32>, depth: int) returns (newDepth: int)
    requires data.Length == MEM_DEPTH && |words| >= 3 && 0 <= StrtolAuto(words[1]) < MEM_DEPTH
    modifies data
    ensures data[..] == old(data[..])[StrtolAuto(words[1]) := Wrap32(StrtolAuto(words[2]))]
    ensures newDepth == Max(depth, StrtolAuto(words[1]) + 1)
  {
    var address := StrtolAuto(words[1]);
    data[address] := Wrap32(StrtolAuto(words[2]));
    newDepth := if depth > address + 1 then depth else address + 1;
  }

  /** dmemin_write: one line per word below the depth, in address order. */
  method DmeminWrite(data: array<Int32>, depth: nat) returns (out: seq<string>)
    requires depth <= data.Length
    ensures |out| == depth
    ensures forall a | 0 <= a < depth :: out[a] == DataWord(data[a])
  {
    out := [];
    var i := 0;
    while i < depth
      invariant 0 <= i <= depth && |out| == i
      invariant forall a | 0 <= a < i :: out[a] == DataWord(data[a])
    {
      out := out + [DataWord(data[i])];
      i := i + 1;
    }
  }

  /** second_pass: classify each line, emit its instruction word or apply
      its directive, and finally print the data image. */
  method SecondPass(lines: seq<Line>, labels: seq<Label>) returns (imemin: seq<Word>, dmemin: seq<string>)
    requires AllTokens(lines) && AllAssemblable(lines)
    ensures imemin == Program(lines, labels)
    ensures dmemin == DataImage(lines)
  {
    var data := new Int32[MEM_DEPTH](_ => 0);
    assert data[..] == Image([]);
    var depth;
    imemin, depth := AssembleLines(lines, labels, data);
    dmemin := DmeminWrite(data, depth);
  }

  /** second_pass's loop over the lines, on a zeroed data memory. */
  method AssembleLines(lines: seq<Line>, labels: seq<Label>, data: array<Int32>) returns (imemin: seq<Word>, depth: nat)
    requires AllTokens(lines) && AllAssemblable(lines)
    requires data[..] == Image([])
    modifies data
    ensures imemin == Program(lines, labels)
    ensures depth == DataDepth(DataWrites(lines)) <= MEM_DEPTH
    ensures data[..] == Image(DataWrites(lines))
  {
    depth := 0;
    imemin := [];
    var i := 0;
    while i < |lines|
      invariant 0 <= i <= |lines|
      invariant imemin == Program(lines[..i], labels)
      invariant depth == DataDepth(DataWrites(lines[..i]))
      invariant data[..] == Image(DataWrites(lines[..i]))
    {
      SecondPassStep(lines, labels, i);
      imemin, depth := AssembleLine(lines[i], labels, data, imemin, depth, DataWrites(lines[..i]));
      i := i + 1;
    }
    assert lines[..i] == lines;
  }

  lemma SecondPassStep(lines: seq<Line>, labels: seq<Label>, i: nat)
    requires AllTokens(lines) && AllAssemblable(lines) && i < |lines|
    ensures AllTokens(lines[..i]) && AllAssemblable(lines[..i])
    ensures Program(lines[..i + 1], labels) == Program(lines[..i], labels) + LineWords(lines[i], labels)
    ensures DataWrites(lines[..i + 1]) == DataWrites(lines[..i]) + LineWrites(lines[i])
  {
    assert lines[..i + 1][..i] == lines[..i];
  }

  /** The body of second_pass's loop for one line: an instruction appends
      its word, a directive is applied to the data memory. */
  method AssembleLine(line: Line, labels: seq<Label>, data: array<Int32>, imemin: seq<Word>, depth: int,
                      ghost writes: seq<(int, Int32)>)
    returns (imemin': seq<Word>, depth': int)
    requires Tokens(line) && Assemblable(line)
    requires data.Length == MEM_DEPTH && data[..] == Image(writes) && depth == DataDepth(writes)
    modifies data
    ensures imemin' == imemin + LineWords(line, labels)
    ensures depth' == DataDepth(writes + LineWrites(line))
    ensures data[..] == Image(writes + LineWrites(line))
  {
    imemin', depth' := imemin, depth;
    var status := LineStatus(line, 0);
    if status != 0 {
      var start := 0;
      if status == 3 {
        start := 1;
        status := LineStatus(line, 1);
      }
      var words := CollectWords(line, start);
      if status == 1 {
        var w := ParseLineImemin(words, labels);
        imemin' := imemin + [w];
      } else if status == 2 {
        depth' := SetMemory(words, data, depth);
        ImageAppend(writes, StrtolAuto(words[1]), Wrap32(StrtolAuto(words[2])));
      }
    }
    if ClassOf(line) != 2 {
      assert writes + LineWrites(line) == writes;
    }
  }

  // ---------------------------------------------------------------------
  // The passes agree

  /** A first token in which a '#' comes before a ':' is a label to
      second_pass but not to first_pass; every other line takes as many
      addresses in the first pass as words in the second. */
  predicate Consistent(line: Line)
    requires Tokens(line)
  {
    Skipped(line) || DefinedLabel(line[0]).Some? || ':' !in line[0]
  }

  /** The token "a#b:" shows the disagreement: the first pass gives the
      line an address, while the second pass reads it as a label line and
      emits no word, so every later address is off by one. */
  lemma PassesDisagree()
    ensures Tokens(["a#b:"]) && !Consistent(["a#b:"])
    ensures RowsOf(["a#b:"]) == 1 && LineWords(["a#b:"], []) == []
  {
  }

  lemma RowsOfMatchesClass(line: Line)
    requires Tokens(line) && Consistent(line)
    ensures RowsOf(line) == if ClassOf(line) == 1 then 1 else 0
  {
    if !Skipped(line) && DefinedLabel(line[0]).Some? {
      assert ':' in line[0];
    }
  }

  /** The row count of the first pass is the number of words the second
      pass emits. */
  lemma {:induction false} RowCountIsProgramLength(lines: seq<Line>, labels: seq<Label>)
    requires AllTokens(lines) && AllAssemblable(lines)
    requires forall i | 0 <= i < |lines| :: Consistent(lines[i])
    ensures RowCount(lines) == |Program(lines, labels)|
  {
    if lines != [] {
      RowCountIsProgramLength(lines[..|lines| - 1], labels);
      RowsOfMatchesClass(lines[|lines| - 1]);
    }
  }

  /** A label defined on line j stands for the address of the next word
      the second pass emits: the number of words emitted before line j. */
  lemma {:induction false} LabelAddressIsPosition(lines: seq<Line>, labels: seq<Label>, j: nat)
    requires AllTokens(lines) && AllAssemblable(lines)
    requires forall i | 0 <= i < |lines| :: Consistent(lines[i])
    requires j < |lines| && LineLabel(lines[j]).Some?
    ensures Label(LineLabel(lines[j]).value, |Program(lines[..j], labels)|) in LabelsOf(lines)
  {
    var p := lines[..j + 1];
    assert p[..j] == lines[..j];
    assert p[j] == lines[j];
    var entry := Label(LineLabel(lines[j]).value, RowCount(lines[..j]));
    assert LabelsOf(p) == LabelsOf(lines[..j]) + [entry];
    RowCountIsProgramLength(lines[..j], labels);
    LabelsOfPrefix(lines, j + 1);
    var k := |LabelsOf(p)| - 1;
    assert LabelsOf(p)[k] == entry;
    assert LabelsOf(lines)[k] == entry;
  }

  /** What the simulator decodes from an assembled instruction: the parsed
      opcode and registers, and each immediate's low 12 bits sign-extended
      (so an address label up to 4095 is recovered by the simulator's
      `& 0xfff`). */
  lemma {:induction false} AssembledInstructionDecodes(words: seq<string>, labels: seq<Label>)
    requires |words| >= MAX_WORDS && |words[5]| > 0 && |words[6]| > 0
    requires ParseOpcode(words[0]) >= 0
    requires ParseReg(words[1]) >= 0 && ParseReg(words[2]) >= 0 && ParseReg(words[3]) >= 0 && ParseReg(words[4]) >= 0
    ensures var f := InstructionFields(words, labels);
            var w := Encode(f);
            && WellFormed(w) && |w| == WORD_DIGITS
            && Decode(w) == f.(imm1 := Sext12(Mask12(f.imm1)), imm2 := Sext12(Mask12(f.imm2)))
  {
    var f := InstructionFields(words, labels);
    assert Encodable(f.(imm1 := 0, imm2 := 0));
    DecodeEncodeImmediate(f);
  }

  lemma Pow16Eight()
    ensures Pow16(8) == TWO32
  {
    assert Pow16(1) == 16;
    assert Pow16(2) == 256;
    assert Pow16(4) == 65536;
    assert Pow16(8) == 16 * 16 * 16 * 16 * Pow16(4);
  }

  /** A data word printed by dmemin_write and read back by the simulator's
      `(int)strtol(line, NULL, 16)` is the word itself. */
  lemma {:induction false} DataWordRoundTrip(x: Int32)
    ensures Wrap32(HexValue(DataWord(x))) == x
  {
    Pow16Eight();
    Words.HexRoundTrip(Unsigned32(x), 8);
    WrapUnsigned(x);
  }
}
