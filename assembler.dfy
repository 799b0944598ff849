/**
 * The LC-3 subset assembler: field encoders, one packer per instruction
 * format, the dispatch on a line's mnemonic prefix, and the loop over the
 * lines of a program.  Each packer receives the whole (stripped) line,
 * splits it on whitespace and reads its operands by position; token 0 is
 * never looked at again after dispatch.
 */
module Assembler {
  import opened Results
  import opened Binary
  import opened Text
  import opened Lc3

  /**
   * What stops assembly.  MalformedOperand covers a missing token (Python's
   * IndexError) and a token that is not an integer (ValueError from int()).
   */
  datatype Error =
    | OffsetOutOfRange
    | ImmediateOutOfRange
    | InvalidAddFormat
    | UnsupportedInstruction(line: string)
    | MalformedOperand

  // ----- operand access -----

  /** `parts[k]`, failing where Python raises IndexError. */
  function Token(parts: seq<string>, k: nat): (r: Result<string, Error>)
    ensures r.Success? <==> k < |parts|
    ensures r.Success? ==> r.value == parts[k]
    ensures r.Failure? ==> r.error == MalformedOperand
  {
    if k < |parts| then Success(parts[k]) else Failure(MalformedOperand)
  }

  /** `int(parts[k])`. */
  function IntOperand(parts: seq<string>, k: nat): (r: Result<int, Error>)
    ensures r.Success? <==> k < |parts| && IsInteger(parts[k])
    ensures r.Success? ==> ParseInt(parts[k]) == Some(r.value)
    ensures r.Failure? ==> r.error == MalformedOperand
  {
    var t :- Token(parts, k);
    match ParseInt(t)
    case None => Failure(MalformedOperand)
    case Some(v) => Success(v)
  }

  /** A register token whose second character is a digit 0-7 (the first is never examined). */
  predicate LowRegister(t: string) {
    |t| >= 2 && '0' <= t[1] <= '7'
  }

  // ----- field encoders -----

  /**
   * `int(register[1])`: the register number is the digit in second
   * position; the prefix and anything after that digit are ignored.
   */
  function RegisterNumber(register: string): (r: Result<nat, Error>)
    ensures r.Success? <==> |register| >= 2 && IsDigit(register[1])
    ensures r.Success? ==> r.value == (register[1] - '0') as nat && r.value <= 9
    ensures r.Failure? ==> r.error == MalformedOperand
  {
    if |register| < 2 then Failure(MalformedOperand)
    else
      match ParseInt([register[1]])
      case None => Failure(MalformedOperand)
      case Some(d) => Success(d as nat)
  }

  /** `register_to_bin`: the register digit in binary, zero-padded to three characters. */
  function RegisterToBin(register: string): (r: Result<string, Error>)
    ensures r.Success? <==> |register| >= 2 && IsDigit(register[1])
    ensures r.Failure? ==> r.error == MalformedOperand
    ensures r.Success? ==> IsBinary(r.value) && Unsigned(r.value) == (register[1] - '0') as nat
    ensures r.Success? ==> |r.value| >= 3 && (|r.value| == 3 <==> LowRegister(register))
    ensures r.Success? && !LowRegister(register) ==> |r.value| == 4 && r.value[0] == '1'
  {
    var d :- RegisterNumber(register);
    Pow2Widths();
    assert d >= 8 ==> FormatBin(d, 3) == (if d == 8 then "1000" else "1001");
    Success(FormatBin(d, 3))
  }

  /** `nzp_to_bin`: bit k is set exactly when the k-th of 'n', 'z', 'p' occurs anywhere in the token. */
  function NzpToBin(nzp: string): (r: string)
    ensures |r| == 3 && IsBinary(r)
    ensures forall k | 0 <= k < 3 :: r[k] == '1' <==> "nzp"[k] in nzp
  {
    var n := if 'n' in nzp then '1' else '0';
    var z := if 'z' in nzp then '1' else '0';
    var p := if 'p' in nzp then '1' else '0';
    [n, z, p]
  }

  /**
   * `pcoffset9_to_bin`: a value in [-256, 255] as nine bits of two's
   * complement (`value & 0x1FF` is `value % 512`); anything else is an error.
   */
  function PcOffset9ToBin(value: int): (r: Result<string, Error>)
    ensures r.Success? <==> -256 <= value <= 255
    ensures r.Failure? ==> r.error == OffsetOutOfRange
    ensures r.Success? ==> |r.value| == 9 && IsBinary(r.value)
    ensures r.Success? ==> Unsigned(r.value) == value % 512 && Signed(r.value) == value
    ensures r.Success? && value >= 0 ==> r.value == FormatBin(value, 9)
  {
    if -256 <= value <= 255 then
      MaskOffset9(value);
      Success(FormatBin(value % 512, 9))
    else
      Failure(OffsetOutOfRange)
  }

  /**
   * `imm5_to_bin`: a value in [-16, 15] as five bits of two's complement
   * (`value & 0x1F` is `value % 32`); anything else is an error.
   */
  function Imm5ToBin(value: int): (r: Result<string, Error>)
    ensures r.Success? <==> -16 <= value <= 15
    ensures r.Failure? ==> r.error == ImmediateOutOfRange
    ensures r.Success? ==> |r.value| == 5 && IsBinary(r.value)
    ensures r.Success? ==> Unsigned(r.value) == value % 32 && Signed(r.value) == value
    ensures r.Success? && value >= 0 ==> r.value == FormatBin(value, 5)
  {
    if -16 <= value <= 15 then
      MaskImm5(value);
      Success(FormatBin(value % 32, 5))
    else
      Failure(ImmediateOutOfRange)
  }

  /** The masked value, as nine bits, reads back as the value in two's complement. */
  lemma MaskOffset9(value: int)
    requires -256 <= value <= 255
    ensures var r := FormatBin(value % 512, 9); |r| == 9 && Unsigned(r) == value % 512 && Signed(r) == value
  {
    Pow2Widths();
    MaskIsWrapOffset9(value);
    TwosComplementRoundTrip(value, 9);
  }

  lemma MaskIsWrapOffset9(value: int)
    requires -256 <= value <= 255
    ensures value % 512 == Wrap(value, 9)
  {
    Pow2Widths();
    if value < 0 {
      assert value + 512 == value % 512;
    }
  }

  /** The masked value, as five bits, reads back as the value in two's complement. */
  lemma MaskImm5(value: int)
    requires -16 <= value <= 15
    ensures var r := FormatBin(value % 32, 5); |r| == 5 && Unsigned(r) == value % 32 && Signed(r) == value
  {
    Pow2Widths();
    MaskIsWrapImm5(value);
    TwosComplementRoundTrip(value, 5);
  }

  lemma MaskIsWrapImm5(value: int)
    requires -16 <= value <= 15
    ensures value % 32 == Wrap(value, 5)
  {
    Pow2Widths();
    if value < 0 {
      assert value + 32 == value % 32;
    }
  }

  // ----- per-opcode packers -----

  /**
   * `assemble_add_instruction`: token 3 chooses the mode, "1" for an
   * immediate (token 4 an IMM5), "000" for a register (token 4 is SR2).
   */
  function AssembleAdd(instruction: string): (r: Result<string, Error>)
    ensures r.Success? ==> IsBinary(r.value) && |r.value| >= 16 && r.value[..4] == "0001"
    ensures r.Success? ==> var parts := Split(instruction);
      |parts| >= 5 && (parts[3] == "1" || parts[3] == "000")
      && (|r.value| == 16 <==> LowRegister(parts[1]) && LowRegister(parts[2])
                               && (parts[3] == "000" ==> LowRegister(parts[4])))
  {
    var parts := Split(instruction);
    var t1 :- Token(parts, 1);
    var dr :- RegisterToBin(t1);
    var t2 :- Token(parts, 2);
    var sr1 :- RegisterToBin(t2);
    var mode :- Token(parts, 3);
    if mode == "1" then AddImmediateMode(dr, sr1, parts)
    else if mode == "000" then AddRegisterMode(dr, sr1, parts)
    else Failure(InvalidAddFormat)
  }

  /** ADD in immediate mode, once DR and SR1 are encoded: flag 1, then the IMM5 of token 4. */
  function AddImmediateMode(dr: string, sr1: string, parts: seq<string>): (r: Result<string, Error>)
    requires IsBinary(dr) && IsBinary(sr1)
    ensures r.Success? ==> (IsBinary(r.value) && |r.value| == 10 + |dr| + |sr1|
      && r.value[..4] == "0001" && |parts| >= 5)
  {
    var v :- IntOperand(parts, 4);
    var imm5 :- Imm5ToBin(v);
    BinaryConcat("0001" + dr, sr1);
    BinaryConcat("0001" + dr + sr1, "1");
    BinaryConcat("0001" + dr + sr1 + "1", imm5);
    Success("0001" + dr + sr1 + "1" + imm5)
  }

  /** ADD in register mode, once DR and SR1 are encoded: flag 0, bits 00, then the SR2 of token 4. */
  function AddRegisterMode(dr: string, sr1: string, parts: seq<string>): (r: Result<string, Error>)
    requires IsBinary(dr) && IsBinary(sr1)
    ensures r.Success? ==> (IsBinary(r.value) && |r.value| >= 10 + |dr| + |sr1|
      && r.value[..4] == "0001" && |parts| >= 5
      && (|r.value| == 10 + |dr| + |sr1| <==> LowRegister(parts[4])))
  {
    var t4 :- Token(parts, 4);
    var sr2 :- RegisterToBin(t4);
    BinaryConcat("0001" + dr, sr1);
    BinaryConcat("0001" + dr + sr1, "0" + "00");
    BinaryConcat("0001" + dr + sr1 + "0" + "00", sr2);
    Success("0001" + dr + sr1 + "0" + "00" + sr2)
  }

  /** The shared shape of LD and ST: opcode, the register of token 1, the PCoffset9 of token 2. */
  function AssembleRegisterOffset(opcode: string, instruction: string): (r: Result<string, Error>)
    requires |opcode| == 4 && IsBinary(opcode)
    ensures r.Success? ==> IsBinary(r.value) && |r.value| >= 16 && r.value[..4] == opcode
    ensures r.Success? ==> (|Split(instruction)| >= 3
      && (|r.value| == 16 <==> LowRegister(Split(instruction)[1])))
  {
    var parts := Split(instruction);
    var t1 :- Token(parts, 1);
    var reg :- RegisterToBin(t1);
    var v :- IntOperand(parts, 2);
    var offset :- PcOffset9ToBin(v);
    BinaryConcat(opcode, reg);
    BinaryConcat(opcode + reg, offset);
    Success(opcode + reg + offset)
  }

  /** `assemble_ld_instruction`: 0010, DR from token 1, PCoffset9 from token 2. */
  function AssembleLd(instruction: string): (r: Result<string, Error>)
    ensures r.Success? ==> IsBinary(r.value) && |r.value| >= 16 && r.value[..4] == "0010"
    ensures r.Success? ==> (|Split(instruction)| >= 3
      && (|r.value| == 16 <==> LowRegister(Split(instruction)[1])))
  {
    AssembleRegisterOffset("0010", instruction)
  }

  /** `assemble_st_instruction`: 0011, SR from token 1, PCoffset9 from token 2. */
  function AssembleSt(instruction: string): (r: Result<string, Error>)
    ensures r.Success? ==> IsBinary(r.value) && |r.value| >= 16 && r.value[..4] == "0011"
    ensures r.Success? ==> (|Split(instruction)| >= 3
      && (|r.value| == 16 <==> LowRegister(Split(instruction)[1])))
  {
    AssembleRegisterOffset("0011", instruction)
  }

  /** `assemble_br_instruction`: 0000, the NZP mask of token 1, PCoffset9 from token 2; always 16 bits. */
  function AssembleBr(instruction: string): (r: Result<string, Error>)
    ensures r.Success? ==> IsBinary(r.value) && |r.value| == 16 && r.value[..4] == "0000"
    ensures r.Success? <==> var parts := Split(instruction);
      |parts| >= 3 && IsInteger(parts[2]) && -256 <= ParseInt(parts[2]).value <= 255
  {
    var parts := Split(instruction);
    var t1 :- Token(parts, 1);
    var nzp := NzpToBin(t1);
    var v :- IntOperand(parts, 2);
    var offset :- PcOffset9ToBin(v);
    BinaryConcat("0000", nzp);
    BinaryConcat("0000" + nzp, offset);
    Success("0000" + nzp + offset)
  }

  // ----- a packer reads only its operand tokens -----

  /**
   * Two lines whose tokens 1 to `n` agree (both present and equal, or both
   * missing); token 0 and the tokens after `n` may differ in any way.
   */
  predicate SameTokens(a: string, b: string, n: nat) {
    forall k: nat | 1 <= k <= n :: Token(Split(a), k) == Token(Split(b), k)
  }

  /**
   * ADD's result depends on tokens 1 to 4 only: neither the mnemonic nor
   * any token after the fourth operand is read.
   */
  lemma AddReadsTokens1To4(a: string, b: string)
    requires SameTokens(a, b, 4)
    ensures AssembleAdd(a) == AssembleAdd(b)
  {
    var pa, pb := Split(a), Split(b);
    assert Token(pa, 1) == Token(pb, 1) && Token(pa, 2) == Token(pb, 2);
    assert Token(pa, 3) == Token(pb, 3) && Token(pa, 4) == Token(pb, 4);
    forall dr, sr1 | IsBinary(dr) && IsBinary(sr1)
      ensures AddImmediateMode(dr, sr1, pa) == AddImmediateMode(dr, sr1, pb)
      ensures AddRegisterMode(dr, sr1, pa) == AddRegisterMode(dr, sr1, pb)
    {
      AddModesReadToken4(dr, sr1, pa, pb);
    }
  }

  lemma AddModesReadToken4(dr: string, sr1: string, pa: seq<string>, pb: seq<string>)
    requires IsBinary(dr) && IsBinary(sr1) && Token(pa, 4) == Token(pb, 4)
    ensures AddImmediateMode(dr, sr1, pa) == AddImmediateMode(dr, sr1, pb)
    ensures AddRegisterMode(dr, sr1, pa) == AddRegisterMode(dr, sr1, pb)
  {
    assert IntOperand(pa, 4) == IntOperand(pb, 4);
  }

  /** LD's and ST's result depends on tokens 1 and 2 only. */
  lemma RegisterOffsetReadsTokens1And2(opcode: string, a: string, b: string)
    requires |opcode| == 4 && IsBinary(opcode)
    requires SameTokens(a, b, 2)
    ensures AssembleRegisterOffset(opcode, a) == AssembleRegisterOffset(opcode, b)
  {
    var pa, pb := Split(a), Split(b);
    assert Token(pa, 1) == Token(pb, 1) && Token(pa, 2) == Token(pb, 2);
    assert IntOperand(pa, 2) == IntOperand(pb, 2);
  }

  /** BR's result depends on tokens 1 and 2 only. */
  lemma BrReadsTokens1And2(a: string, b: string)
    requires SameTokens(a, b, 2)
    ensures AssembleBr(a) == AssembleBr(b)
  {
    var pa, pb := Split(a), Split(b);
    assert Token(pa, 1) == Token(pb, 1) && Token(pa, 2) == Token(pb, 2);
    assert IntOperand(pa, 2) == IntOperand(pb, 2);
  }

  // ----- one line -----

  /** A stripped line that produces nothing: empty, or a `;` comment. */
  predicate IsSkipped(line: string)
    ensures IsSkipped(line) && line != [] ==> line[0] == ';'
    ensures line != [] && line[0] == ';' ==> IsSkipped(line)
  {
    line == [] || StartsWith(line, ";")
  }

  /**
   * The dispatch of one stripped, non-skipped line: by prefix, "ADD" first,
   * then "LD", "ST", "BR"; anything else is unsupported.
   */
  function AssembleLine(line: string): (r: Result<string, Error>)
    ensures r.Success? ==> IsBinary(r.value) && |r.value| >= 16
    ensures r.Success? && StartsWith(line, "ADD") ==> r.value[..4] == "0001"
    ensures r.Success? && !StartsWith(line, "ADD") && StartsWith(line, "LD") ==> r.value[..4] == "0010"
    ensures r.Success? && !StartsWith(line, "ADD") && !StartsWith(line, "LD") && StartsWith(line, "ST")
      ==> r.value[..4] == "0011"
    ensures r.Success? && !StartsWith(line, "ADD") && !StartsWith(line, "LD") && !StartsWith(line, "ST")
      ==> r.value[..4] == "0000"
    ensures (r.Failure? && r.error.UnsupportedInstruction?) <==>
      !(StartsWith(line, "ADD") || StartsWith(line, "LD") || StartsWith(line, "ST") || StartsWith(line, "BR"))
    ensures r.Failure? && r.error.UnsupportedInstruction? ==> r.error.line == line
  {
    if StartsWith(line, "ADD") then AssembleAdd(line)
    else if StartsWith(line, "LD") then AssembleLd(line)
    else if StartsWith(line, "ST") then AssembleSt(line)
    else if StartsWith(line, "BR") then AssembleBr(line)
    else Failure(UnsupportedInstruction(line))
  }

  // ----- a whole program -----

  /** The lines that produce output, stripped, in input order. */
  function Kept(lines: seq<string>): (kept: seq<string>)
    ensures |kept| <= |lines|
    ensures forall j | 0 <= j < |kept| :: !IsSkipped(kept[j]) && Strip(kept[j]) == kept[j]
  {
    if lines == [] then []
    else
      var line := Strip(lines[|lines| - 1]);
      var init := Kept(lines[..|lines| - 1]);
      StripStripped(lines[|lines| - 1]);
      if IsSkipped(line) then init else init + [line]
  }

  lemma {:induction false} KeptAppend(a: seq<string>, b: seq<string>)
    ensures Kept(a + b) == Kept(a) + Kept(b)
    decreases |b|
  {
    if b == [] {
      assert a + b == a;
    } else {
      var b' := b[..|b| - 1];
      assert (a + b)[..|a + b| - 1] == a + b';
      assert (a + b)[|a + b| - 1] == b[|b| - 1];
      KeptAppend(a, b');
    }
  }

  /** One more line keeps one more stripped line, unless it is skipped. */
  lemma KeptStep(lines: seq<string>, i: nat)
    requires i < |lines|
    ensures Kept(lines[..i + 1]) == Kept(lines[..i]) + (if IsSkipped(Strip(lines[i])) then [] else [Strip(lines[i])])
  {
    assert lines[..i + 1][..i] == lines[..i];
  }

  /** What the first n lines keep is the start of what all the lines keep. */
  lemma KeptPrefix(lines: seq<string>, n: nat)
    requires n <= |lines|
    ensures |Kept(lines[..n])| <= |Kept(lines)|
    ensures Kept(lines)[..|Kept(lines[..n])|] == Kept(lines[..n])
  {
    assert lines == lines[..n] + lines[n..];
    KeptAppend(lines[..n], lines[n..]);
  }

  /** `words` are, one for one and in order, the successful assemblies of `kept`. */
  predicate Produced(kept: seq<string>, words: seq<string>) {
    |words| == |kept| && forall j | 0 <= j < |kept| :: AssembleLine(kept[j]) == Success(words[j])
  }

  lemma ProducedStep(kept: seq<string>, words: seq<string>, line: string)
    requires Produced(kept, words) && AssembleLine(line).Success?
    ensures Produced(kept + [line], words + [AssembleLine(line).value])
  {
  }

  /** A line that is not skipped sits in what all the lines keep right after what the lines before it keep. */
  lemma HaltAt(lines: seq<string>, i: nat, written: seq<string>)
    requires i < |lines| && !IsSkipped(Strip(lines[i]))
    requires Produced(Kept(lines[..i]), written)
    ensures |written| < |Kept(lines)| && Kept(lines)[|written|] == Strip(lines[i])
    ensures Produced(Kept(lines)[..|written|], written)
  {
    KeptNext(lines, i);
  }

  /** A line that is not skipped is kept right after what the lines before it keep. */
  lemma KeptNext(lines: seq<string>, i: nat)
    requires i < |lines| && !IsSkipped(Strip(lines[i]))
    ensures |Kept(lines[..i])| < |Kept(lines)|
    ensures Kept(lines)[|Kept(lines[..i])|] == Strip(lines[i])
    ensures Kept(lines)[..|Kept(lines[..i])|] == Kept(lines[..i])
  {
    var all, before, line := Kept(lines), Kept(lines[..i]), Strip(lines[i]);
    KeptStep(lines, i);
    assert Kept(lines[..i + 1]) == before + [line];
    KeptPrefix(lines, i + 1);
    NextAfterPrefix(all, before, line);
  }

  /** If `before + [x]` starts `all`, then `x` comes right after `before` in `all`. */
  lemma NextAfterPrefix<T>(all: seq<T>, before: seq<T>, x: T)
    requires |before| + 1 <= |all| && all[..|before| + 1] == before + [x]
    ensures |before| < |all| && all[|before|] == x && all[..|before|] == before
  {
    assert all[..|before|] == all[..|before| + 1][..|before|];
    assert all[|before|] == all[..|before| + 1][|before|];
  }

  /**
   * `assemble_instructions_from_file`, on the lines of the input file: each
   * line is stripped, blank and `;` lines are skipped, every other line is
   * assembled and its word written, in order.  The first error stops the
   * run: `written` then holds the words of the lines before it and
   * `failure` the error of the line that raised.
   */
  method AssembleProgram(lines: seq<string>) returns (written: seq<string>, failure: Option<Error>)
    ensures |written| <= |Kept(lines)|
    ensures Produced(Kept(lines)[..|written|], written)
    ensures failure.None? ==> |written| == |Kept(lines)|
    ensures failure.Some? ==> (|written| < |Kept(lines)|
      && AssembleLine(Kept(lines)[|written|]) == Failure(failure.value))
  {
    written, failure := [], None;
    for i := 0 to |lines|
      invariant Produced(Kept(lines[..i]), written)
    {
      var line := Strip(lines[i]);
      KeptStep(lines, i);
      if IsSkipped(line) {
        continue;
      }
      var machineCode := AssembleLine(line);
      if machineCode.Failure? {
        failure := Some(machineCode.error);
        HaltAt(lines, i, written);
        return;
      }
      ProducedStep(Kept(lines[..i]), written, line);
      written := written + [machineCode.value];
    }
    assert lines[..|lines|] == lines;
  }
}
