// The assembler's token-level functions (asm.c): line classification
// (line_status), the mnemonic and register tables (parse_opcode,
// parse_reg), immediates (parse_imm with the C library's atoi and strtol)
// and the label list lookup (parse_label). A source line is the sequence of
// tokens strtok splits it into with the delimiters " \t\n\r,"; every token
// is non-empty.

module AsmParse {
  import opened Words

  /** A source line, already split into tokens. */
  type Line = seq<string>

  predicate Tokens(line: Line) {
    forall i | 0 <= i < |line| :: |line[i]| > 0
  }

  // ---------------------------------------------------------------------
  // line_status

  /** The class of token `i` of `line`: 0 for a missing token or a comment,
      2 for a directive, 3 for a token holding a label's ':', 1 for the
      rest. The directive test comes first, so ".a:" is a directive. */
  function StatusAt(line: Line, i: nat): (s: int)
    requires Tokens(line)
    ensures 0 <= s <= 3
  {
    if i >= |line| || line[i][0] == '#' then 0
    else if line[i][0] == '.' then 2
    else if ':' in line[i] then 3
    else 1
  }

  /** line_status, scanning the token for ':' as the source does. */
  method LineStatus(line: Line, i: nat) returns (status: int)
    requires Tokens(line)
    ensures status == StatusAt(line, i)
  {
    if i >= |line| || line[i][0] == '#' {
      return 0;
    }
    var t := line[i];
    if t[0] == '.' {
      return 2;
    }
    var k := 0;
    while k < |t|
      invariant 0 <= k <= |t| && ':' !in t[..k]
    {
      if t[k] == ':' {
        return 3;
      }
      k := k + 1;
    }
    assert t[..k] == t;
    return 1;
  }

  // ---------------------------------------------------------------------
  // parse_opcode and parse_reg

  const Mnemonics: seq<string> := [
    "add", "sub", "mac", "and", "or", "xor", "sll", "sra", "srl",
    "beq", "bne", "blt", "bgt", "ble", "bge", "jal", "lw", "sw", "reti", "in", "out", "halt"]

  const RegNames: seq<string> := [
    "$zero", "$imm1", "$imm2", "$v0", "$a0", "$a1", "$a2", "$t0",
    "$t1", "$t2", "$s0", "$s1", "$s2", "$gp", "$sp", "$ra"]

  /** parse_opcode: the position of the mnemonic in the table, or -1. */
  function ParseOpcode(s: string): (op: int)
    ensures -1 <= op < |Mnemonics|
    ensures op >= 0 ==> Mnemonics[op] == s
    ensures op == -1 <==> s !in Mnemonics
  {
    if s == "add" then 0
    else if s == "sub" then 1
    else if s == "mac" then 2
    else if s == "and" then 3
    else if s == "or" then 4
    else if s == "xor" then 5
    else if s == "sll" then 6
    else if s == "sra" then 7
    else if s == "srl" then 8
    else if s == "beq" then 9
    else if s == "bne" then 10
    else if s == "blt" then 11
    else if s == "bgt" then 12
    else if s == "ble" then 13
    else if s == "bge" then 14
    else if s == "jal" then 15
    else if s == "lw" then 16
    else if s == "sw" then 17
    else if s == "reti" then 18
    else if s == "in" then 19
    else if s == "out" then 20
    else if s == "halt" then 21
    else -1
  }

  /** parse_reg: the position of the register name in the table, or -1. */
  function ParseReg(s: string): (r: int)
    ensures -1 <= r < |RegNames|
    ensures r >= 0 ==> RegNames[r] == s
    ensures r == -1 <==> s !in RegNames
  {
    if s == "$zero" then 0
    else if s == "$imm1" then 1
    else if s == "$imm2" then 2
    else if s == "$v0" then 3
    else if s == "$a0" then 4
    else if s == "$a1" then 5
    else if s == "$a2" then 6
    else if s == "$t0" then 7
    else if s == "$t1" then 8
    else if s == "$t2" then 9
    else if s == "$s0" then 10
    else if s == "$s1" then 11
    else if s == "$s2" then 12
    else if s == "$gp" then 13
    else if s == "$sp" then 14
    else if s == "$ra" then 15
    else -1
  }

  /** The mnemonics name the opcodes 0..21 one to one. */
  lemma MnemonicsOneToOne(k: nat)
    requires k < |Mnemonics|
    ensures ParseOpcode(Mnemonics[k]) == k
  {
    var j := ParseOpcode(Mnemonics[k]);
    assert Mnemonics[j] == Mnemonics[k];
  }

  /** The register names name the registers 0..15 one to one. */
  lemma RegNamesOneToOne(k: nat)
    requires k < |RegNames|
    ensures ParseReg(RegNames[k]) == k
  {
    var j := ParseReg(RegNames[k]);
    assert RegNames[j] == RegNames[k];
  }

  // ---------------------------------------------------------------------
  // Numbers: the parts of atoi and strtol the assembler relies on

  predicate IsBase(base: nat) {
    base == 8 || base == 10 || base == 16
  }

  predicate IsDigitIn(c: char, base: nat)
    requires IsBase(base)
  {
    if base == 16 then IsHexDigit(c) else '0' <= c <= '9' && c as int - '0' as int < base
  }

  function DigitIn(c: char, base: nat): (d: nat)
    requires IsBase(base) && IsDigitIn(c, base)
    ensures d < base
  {
    if base == 16 then HexDigitValue(c) else c as int - '0' as int
  }

  predicate AllDigitsIn(s: string, base: nat)
    requires IsBase(base)
  {
    forall i | 0 <= i < |s| :: IsDigitIn(s[i], base)
  }

  /** The longest prefix of `s` made of digits of `base`: where the C
      library conversions stop. */
  function LeadingDigits(s: string, base: nat): (d: string)
    requires IsBase(base)
    ensures d <= s && AllDigitsIn(d, base)
    ensures |d| < |s| ==> !IsDigitIn(s[|d|], base)
  {
    if s == [] || !IsDigitIn(s[0], base) then []
    else [s[0]] + LeadingDigits(s[1..], base)
  }

  /** The value of a string of digits, most significant first. */
  function DigitsValue(d: string, base: nat): nat
    requires IsBase(base) && AllDigitsIn(d, base)
  {
    if d == [] then 0 else DigitsValue(d[..|d| - 1], base) * base + DigitIn(d[|d| - 1], base)
  }

  function Magnitude(s: string, base: nat): nat
    requires IsBase(base)
  {
    DigitsValue(LeadingDigits(s, base), base)
  }

  /** `atoi`: an optional sign, then decimal digits up to the first other
      character. */
  function Atoi(s: string): (r: int)
    ensures |s| > 0 && s[0] == '-' ==> r <= 0
    ensures !(|s| > 0 && s[0] == '-') ==> r >= 0
  {
    if |s| > 0 && s[0] == '-' then -(Magnitude(s[1..], 10) as int)
    else if |s| > 0 && s[0] == '+' then Magnitude(s[1..], 10)
    else Magnitude(s, 10)
  }

  /** `strtol(s, NULL, 0)`: an optional sign, then hexadecimal after "0x" or
      "0X", octal after a leading 0, decimal otherwise. */
  function StrtolAuto(s: string): (r: int)
    ensures |s| > 0 && s[0] == '-' ==> r <= 0
    ensures !(|s| > 0 && s[0] == '-') ==> r >= 0
    ensures |s| > 0 && '1' <= s[0] <= '9' ==> r == Magnitude(s, 10)
  {
    var neg := |s| > 0 && s[0] == '-';
    var body := if |s| > 0 && (s[0] == '-' || s[0] == '+') then s[1..] else s;
    var m := if |body| >= 3 && body[0] == '0' && (body[1] == 'x' || body[1] == 'X') && IsHexDigit(body[2])
             then Magnitude(body[2..], 16)
             else if |body| >= 1 && body[0] == '0' then Magnitude(body, 8)
             else Magnitude(body, 10);
    if neg then -(m as int) else m
  }

  /** Decimal digits of `n` without leading zeros, as `%d` prints it. */
  function Decimal(n: nat): (s: string)
    ensures |s| >= 1 && AllDigitsIn(s, 10)
    ensures s[0] == '0' ==> n == 0
  {
    if n < 10 then [('0' as int + n) as char]
    else Decimal(n / 10) + [('0' as int + n % 10) as char]
  }

  lemma {:induction false} LeadingDigitsAll(s: string, base: nat)
    requires IsBase(base) && AllDigitsIn(s, base)
    ensures LeadingDigits(s, base) == s
  {
    if s != [] {
      LeadingDigitsAll(s[1..], base);
    }
  }

  lemma {:induction false} DecimalValue(n: nat)
    ensures DigitsValue(Decimal(n), 10) == n
  {
    if n >= 10 {
      var s := Decimal(n);
      assert s[..|s| - 1] == Decimal(n / 10);
      DecimalValue(n / 10);
    }
  }

  /** Parsing what `%d` prints gives the number back, with atoi and with
      strtol in base 0 alike. */
  lemma {:induction false} DecimalRoundTrip(n: nat)
    ensures Atoi(Decimal(n)) == n && Atoi("-" + Decimal(n)) == -(n as int)
    ensures StrtolAuto(Decimal(n)) == n && StrtolAuto("-" + Decimal(n)) == -(n as int)
  {
    var s := Decimal(n);
    LeadingDigitsAll(s, 10);
    DecimalValue(n);
    assert ("-" + s)[1..] == s;
    if n == 0 {
      assert s == "0";
      assert LeadingDigits(s, 8) == s;
      assert DigitsValue(s, 8) == 0;
    }
  }

  lemma {:induction false} HexDigitsValue(s: string)
    requires AllHex(s)
    ensures AllDigitsIn(s, 16) && DigitsValue(s, 16) == HexValue(s)
  {
    if s != [] {
      HexDigitsValue(s[..|s| - 1]);
    }
  }

  /** Parsing "0x" followed by `w` hexadecimal digits of `n` gives `n` back. */
  lemma {:induction false} HexRoundTrip0x(n: nat, w: nat)
    requires 1 <= w && n < Pow16(w)
    ensures StrtolAuto("0x" + Hex(n, w)) == n
  {
    var h := Hex(n, w);
    var s := "0x" + h;
    assert s[2..] == h;
    HexDigitsValue(h);
    LeadingDigitsAll(h, 16);
    Words.HexRoundTrip(n, w);
  }

  // ---------------------------------------------------------------------
  // The label list and parse_label

  datatype Label = Label(name: string, address: int)

  /** parse_label: the address of the first entry named `name`, or -1. */
  function LabelLookup(labels: seq<Label>, name: string): (r: int)
    ensures r == -1 || exists i | 0 <= i < |labels| :: labels[i].name == name && labels[i].address == r
  {
    if labels == [] then -1
    else if labels[0].name == name then labels[0].address
    else LabelLookup(labels[1..], name)
  }

  /** The first definition wins. */
  lemma {:induction false} LabelLookupFirst(labels: seq<Label>, name: string, i: nat)
    requires i < |labels| && labels[i].name == name
    requires forall j | 0 <= j < i :: labels[j].name != name
    ensures LabelLookup(labels, name) == labels[i].address
  {
    if i > 0 {
      LabelLookupFirst(labels[1..], name, i - 1);
    }
  }

  /** A name with no entry yields -1. */
  lemma {:induction false} LabelLookupMissing(labels: seq<Label>, name: string)
    requires forall j | 0 <= j < |labels| :: labels[j].name != name
    ensures LabelLookup(labels, name) == -1
  {
    if labels != [] {
      LabelLookupMissing(labels[1..], name);
    }
  }

  /** parse_label's walk along the list. */
  method FindLabel(labels: seq<Label>, name: string) returns (address: int)
    ensures address == LabelLookup(labels, name)
  {
    var k := 0;
    while k < |labels|
      invariant 0 <= k <= |labels|
      invariant LabelLookup(labels[k..], name) == LabelLookup(labels, name)
    {
      if labels[k].name == name {
        return labels[k].address;
      }
      assert labels[k..][1..] == labels[k + 1..];
      k := k + 1;
    }
    return -1;
  }

  // ---------------------------------------------------------------------
  // parse_imm

  predicate IsAlpha(c: char) {
    ('a' <= c <= 'z') || ('A' <= c <= 'Z')
  }

  predicate HasHexPrefix(t: string) {
    |t| >= 2 && t[0] == '0' && (t[1] == 'x' || t[1] == 'X')
  }

  /** The value parse_imm gives a token: a label's address when it starts
      with a letter, the hexadecimal digits after "0x" or "0X", and the
      atoi value otherwise. */
  function ImmValue(t: string, labels: seq<Label>): (r: int)
    requires |t| > 0
    ensures IsAlpha(t[0]) ==> r == -1 || exists i | 0 <= i < |labels| :: labels[i].name == t && labels[i].address == r
    ensures !IsAlpha(t[0]) && t[0] != '-' ==> r >= 0
  {
    if IsAlpha(t[0]) then LabelLookup(labels, t)
    else if HasHexPrefix(t) then Magnitude(t[2..], 16)
    else Atoi(t)
  }

  /** parse_imm, calling parse_label for a label. */
  method ParseImm(t: string, labels: seq<Label>) returns (v: int)
    requires |t| > 0
    ensures v == ImmValue(t, labels)
  {
    if IsAlpha(t[0]) {
      v := FindLabel(labels, t);
    } else if HasHexPrefix(t) {
      v := Magnitude(t[2..], 16);
    } else {
      v := Atoi(t);
    }
  }

  /** The three spellings of an immediate each give their value back: a
      defined label its first address, hexadecimal and decimal text their
      number. */
  lemma {:induction false} ImmValueSpellings(n: nat, w: nat, labels: seq<Label>, name: string, i: nat)
    requires 1 <= w && n < Pow16(w)
    requires |name| > 0 && IsAlpha(name[0])
    requires i < |labels| && labels[i].name == name && forall j | 0 <= j < i :: labels[j].name != name
    ensures ImmValue("0x" + Hex(n, w), labels) == n
    ensures ImmValue(Decimal(n), labels) == n && ImmValue("-" + Decimal(n), labels) == -(n as int)
    ensures ImmValue(name, labels) == labels[i].address
  {
    var h := Hex(n, w);
    assert ("0x" + h)[2..] == h;
    HexDigitsValue(h);
    LeadingDigitsAll(h, 16);
    Words.HexRoundTrip(n, w);
    DecimalRoundTrip(n);
    var d := Decimal(n);
    assert !IsAlpha(d[0]) && !HasHexPrefix(d);
    assert ("-" + d)[0] == '-';
    LabelLookupFirst(labels, name, i);
  }
}
