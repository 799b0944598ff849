/**
 * The assembler read as a typed instruction reader plus an encoder: the
 * packers are proved to agree with the reading, through Lc3.Decode.
 */
module AssemblerMeaning {
  import opened Results
  import opened Binary
  import opened Text
  import opened Lc3
  import opened Assembler

  /** Token k read as a register number (its second character). */
  function RegisterOperand(parts: seq<string>, k: nat): Result<nat, Error> {
    var t :- Token(parts, k);
    RegisterNumber(t)
  }

  /** Token k read as a PCoffset9. */
  function OffsetOperand(parts: seq<string>, k: nat): Result<int, Error> {
    var v :- IntOperand(parts, k);
    if -256 <= v <= 255 then Success(v) else Failure(OffsetOutOfRange)
  }

  function ParseAdd(parts: seq<string>): Result<Instr, Error> {
    var dr :- RegisterOperand(parts, 1);
    var sr1 :- RegisterOperand(parts, 2);
    var mode :- Token(parts, 3);
    if mode == "1" then
      var imm :- IntOperand(parts, 4);
      if -16 <= imm <= 15 then Success(AddImm(dr, sr1, imm)) else Failure(ImmediateOutOfRange)
    else if mode == "000" then
      var sr2 :- RegisterOperand(parts, 4);
      Success(AddReg(dr, sr1, sr2))
    else
      Failure(InvalidAddFormat)
  }

  function ParseRegisterOffset(opcode: string, parts: seq<string>): Result<Instr, Error>
    requires opcode in {"0010", "0011"}
  {
    var reg :- RegisterOperand(parts, 1);
    var offset :- OffsetOperand(parts, 2);
    Success(if opcode == "0010" then Ld(reg, offset) else St(reg, offset))
  }

  function ParseBr(parts: seq<string>): Result<Instr, Error> {
    var cc :- Token(parts, 1);
    var offset :- OffsetOperand(parts, 2);
    Success(Br('n' in cc, 'z' in cc, 'p' in cc, offset))
  }

  /**
   * A stripped, non-skipped line read as an instruction: the mnemonic is
   * chosen by prefix exactly as the assembler chooses it, and the operands
   * are read and checked in the order the packers read them.  Register
   * numbers here are 0-9, the digits `int()` accepts.
   */
  function ParseLine(line: string): Result<Instr, Error> {
    var parts := Split(line);
    if StartsWith(line, "ADD") then ParseAdd(parts)
    else if StartsWith(line, "LD") then ParseRegisterOffset("0010", parts)
    else if StartsWith(line, "ST") then ParseRegisterOffset("0011", parts)
    else if StartsWith(line, "BR") then ParseBr(parts)
    else Failure(UnsupportedInstruction(line))
  }

  /**
   * An assembled word agrees with a parsed instruction: both fail with the
   * same error, or both succeed, and then the word is 16 bits exactly when
   * every operand fits its field and decodes back to the instruction.
   */
  predicate Agrees(word: Result<string, Error>, parsed: Result<Instr, Error>) {
    (word.Failure? <==> parsed.Failure?)
    && (word.Failure? ==> word.error == parsed.error)
    && (parsed.Success? ==>
          IsBinary(word.value)
          && (|word.value| == 16 <==> WellFormed(parsed.value))
          && (WellFormed(parsed.value) ==> Decode(word.value) == Some(parsed.value)))
  }

  lemma AddAgrees(instruction: string)
    ensures Agrees(AssembleAdd(instruction), ParseAdd(Split(instruction)))
  {
    var parts := Split(instruction);
    if |parts| >= 4 && RegisterNumber(parts[1]).Success? && RegisterNumber(parts[2]).Success? {
      if parts[3] == "1" {
        AddImmediateAgrees(instruction);
      } else if parts[3] == "000" {
        AddRegisterAgrees(instruction);
      }
    }
  }

  lemma AddImmediateAgrees(instruction: string)
    requires var parts := Split(instruction);
      |parts| >= 4 && RegisterNumber(parts[1]).Success? && RegisterNumber(parts[2]).Success? && parts[3] == "1"
    ensures Agrees(AssembleAdd(instruction), ParseAdd(Split(instruction)))
  {
    var parts := Split(instruction);
    var dr, sr1 := RegisterToBin(parts[1]).value, RegisterToBin(parts[2]).value;
    if IntOperand(parts, 4).Success? {
      var v := IntOperand(parts, 4).value;
      if -16 <= v <= 15 && LowRegister(parts[1]) && LowRegister(parts[2]) {
        DecodeAddImm(dr, sr1, Imm5ToBin(v).value);
      }
    }
  }

  lemma AddRegisterAgrees(instruction: string)
    requires var parts := Split(instruction);
      |parts| >= 4 && RegisterNumber(parts[1]).Success? && RegisterNumber(parts[2]).Success? && parts[3] == "000"
    ensures Agrees(AssembleAdd(instruction), ParseAdd(Split(instruction)))
  {
    var parts := Split(instruction);
    var dr, sr1 := RegisterToBin(parts[1]).value, RegisterToBin(parts[2]).value;
    if |parts| >= 5 && RegisterNumber(parts[4]).Success? {
      if LowRegister(parts[1]) && LowRegister(parts[2]) && LowRegister(parts[4]) {
        DecodeAddReg(dr, sr1, RegisterToBin(parts[4]).value);
      }
    }
  }

  lemma RegisterOffsetAgrees(opcode: string, instruction: string)
    requires opcode in {"0010", "0011"}
    ensures Agrees(AssembleRegisterOffset(opcode, instruction), ParseRegisterOffset(opcode, Split(instruction)))
  {
    var parts := Split(instruction);
    if |parts| >= 3 && RegisterNumber(parts[1]).Success? && IntOperand(parts, 2).Success? {
      var v := IntOperand(parts, 2).value;
      if -256 <= v <= 255 && LowRegister(parts[1]) {
        DecodeOffsetForm(opcode, RegisterToBin(parts[1]).value, PcOffset9ToBin(v).value);
      }
    }
  }

  lemma BrAgrees(instruction: string)
    ensures Agrees(AssembleBr(instruction), ParseBr(Split(instruction)))
  {
    var parts := Split(instruction);
    if |parts| >= 3 && IntOperand(parts, 2).Success? {
      var v := IntOperand(parts, 2).value;
      if -256 <= v <= 255 {
        var nzp := NzpToBin(parts[1]);
        assert nzp[0] == '1' <==> 'n' in parts[1];
        assert nzp[1] == '1' <==> 'z' in parts[1];
        assert nzp[2] == '1' <==> 'p' in parts[1];
        DecodeOffsetForm("0000", nzp, PcOffset9ToBin(v).value);
      }
    }
  }

  /**
   * The assembler means what the line says: for every stripped,
   * non-skipped line, assembling it fails exactly when reading it as an
   * instruction fails, with the same error; otherwise the word is 16 bits
   * exactly when all register digits are 0-7, and then it decodes to the
   * instruction read from the line.
   */
  lemma AssembleLineMeaning(line: string)
    ensures Agrees(AssembleLine(line), ParseLine(line))
  {
    if StartsWith(line, "ADD") {
      AddAgrees(line);
    } else if StartsWith(line, "LD") {
      RegisterOffsetAgrees("0010", line);
    } else if StartsWith(line, "ST") {
      RegisterOffsetAgrees("0011", line);
    } else if StartsWith(line, "BR") {
      BrAgrees(line);
    }
  }

  // ----- writing an instruction as text, and reading it back -----

  /** A register written as the assembler reads it: "R" and the digit. */
  function RegisterToken(r: nat): string
    requires r < 10
  {
    "R" + [DigitChar(r)]
  }

  /** The NZP token: the letters of the set conditions, or "-" for none (no letter is read from it). */
  function ConditionToken(n: bool, z: bool, p: bool): string {
    var cc := (if n then "n" else "") + (if z then "z" else "") + (if p then "p" else "");
    if cc == [] then "-" else cc
  }

  function Tokens(i: Instr): seq<string>
    requires WellFormed(i)
  {
    match i
    case AddReg(dr, sr1, sr2) => ["ADD", RegisterToken(dr), RegisterToken(sr1), "000", RegisterToken(sr2)]
    case AddImm(dr, sr1, imm5) => ["ADD", RegisterToken(dr), RegisterToken(sr1), "1", ShowInt(imm5)]
    case Ld(dr, offset) => ["LD", RegisterToken(dr), ShowInt(offset)]
    case St(sr, offset) => ["ST", RegisterToken(sr), ShowInt(offset)]
    case Br(n, z, p, offset) => ["BR", ConditionToken(n, z, p), ShowInt(offset)]
  }

  /** The assembly line for an instruction, tokens separated by single spaces. */
  function Show(i: Instr): string
    requires WellFormed(i)
  {
    JoinSpaced(Tokens(i))
  }

  lemma ShowIntToken(v: int)
    ensures ShowInt(v) != [] && NoSpace(ShowInt(v))
  {
    var s := ShowNat(if v < 0 then -v else v);
    assert forall k | 0 <= k < |s| :: !IsSpace(s[k]) by {
      forall k | 0 <= k < |s| ensures !IsSpace(s[k]) {
        assert IsDigit(s[k]);
      }
    }
  }

  lemma RegisterTokenReads(r: nat)
    requires r < 10
    ensures RegisterNumber(RegisterToken(r)) == Success(r)
    ensures NoSpace(RegisterToken(r))
  {
    assert [RegisterToken(r)[1]] == [DigitChar(r)];
  }

  /** The fixed tokens of the printed lines contain no whitespace. */
  lemma KeywordsAreWords()
    ensures NoSpace("ADD") && NoSpace("LD") && NoSpace("ST") && NoSpace("BR")
    ensures NoSpace("1") && NoSpace("000") && NoSpace("-")
  {
  }

  lemma ConditionTokenIsWord(n: bool, z: bool, p: bool)
    ensures ConditionToken(n, z, p) != [] && NoSpace(ConditionToken(n, z, p))
  {
  }

  /** Every printed token is non-empty and free of whitespace. */
  lemma TokensAreWords(i: Instr)
    requires WellFormed(i)
    ensures |Tokens(i)| >= 3
    ensures forall k | 0 <= k < |Tokens(i)| :: Tokens(i)[k] != [] && NoSpace(Tokens(i)[k])
  {
    KeywordsAreWords();
    match i {
      case AddReg(dr, sr1, sr2) =>
        RegisterTokenReads(dr);
        RegisterTokenReads(sr1);
        RegisterTokenReads(sr2);
      case AddImm(dr, sr1, imm5) =>
        RegisterTokenReads(dr);
        RegisterTokenReads(sr1);
        ShowIntToken(imm5);
      case Ld(dr, offset) =>
        RegisterTokenReads(dr);
        ShowIntToken(offset);
      case St(sr, offset) =>
        RegisterTokenReads(sr);
        ShowIntToken(offset);
      case Br(n, z, p, offset) =>
        ConditionTokenIsWord(n, z, p);
        ShowIntToken(offset);
    }
  }

  /** The line splits back into its tokens, and starts with the mnemonic and a space. */
  lemma ShowSplits(i: Instr)
    requires WellFormed(i)
    ensures Split(Show(i)) == Tokens(i)
    ensures StartsWith(Show(i), Tokens(i)[0] + " ")
  {
    var t := Tokens(i);
    TokensAreWords(i);
    SplitJoinSpaced(t);
    assert Show(i) == t[0] + " " + JoinSpaced(t[1..]);
    assert Show(i)[..|t[0]| + 1] == t[0] + " ";
  }

  /** A line that starts with one of the four mnemonics and a space is dispatched on that mnemonic. */
  lemma MnemonicOf(line: string, m: string)
    requires m in {"ADD", "LD", "ST", "BR"} && StartsWith(line, m + " ")
    ensures StartsWith(line, "ADD") <==> m == "ADD"
    ensures StartsWith(line, "LD") <==> m == "LD"
    ensures StartsWith(line, "ST") <==> m == "ST"
    ensures StartsWith(line, "BR") <==> m == "BR"
  {
    assert line[..|m| + 1] == m + " ";
    assert line[0] == m[0] && line[1] == m[1];
    if m == "ADD" {
      assert line[2] == 'D' && line[..3] == "ADD";
    } else {
      FirstDiffers(line, "ADD");
      assert line[..2] == m;
    }
    if m != "LD" { FirstDiffers(line, "LD"); }
    if m != "ST" { FirstDiffers(line, "ST"); }
    if m != "BR" { FirstDiffers(line, "BR"); }
  }

  lemma ParseShowAdd(i: Instr)
    requires WellFormed(i) && (i.AddReg? || i.AddImm?)
    ensures ParseLine(Show(i)) == Success(i)
  {
    ShowSplits(i);
    RegisterTokenReads(i.dr);
    RegisterTokenReads(i.sr1);
    if i.AddReg? {
      RegisterTokenReads(i.sr2);
    } else {
      ParseShowInt(i.imm5);
    }
    MnemonicOf(Show(i), "ADD");
  }

  lemma ParseShowLoadStore(i: Instr)
    requires WellFormed(i) && (i.Ld? || i.St?)
    ensures ParseLine(Show(i)) == Success(i)
  {
    ShowSplits(i);
    var line := Show(i);
    ParseShowInt(i.offset);
    if i.Ld? {
      RegisterTokenReads(i.dr);
      MnemonicOf(line, "LD");
    } else {
      RegisterTokenReads(i.sr);
      MnemonicOf(line, "ST");
    }
  }

  lemma ParseShowBr(i: Instr)
    requires WellFormed(i) && i.Br?
    ensures ParseLine(Show(i)) == Success(i)
  {
    ShowSplits(i);
    var line := Show(i);
    ParseShowInt(i.offset);
    MnemonicOf(line, "BR");
  }

  /** Reading the printed line of a well-formed instruction gives the instruction back. */
  lemma ParseShow(i: Instr)
    requires WellFormed(i)
    ensures ParseLine(Show(i)) == Success(i)
  {
    if i.AddReg? || i.AddImm? {
      ParseShowAdd(i);
    } else if i.Ld? || i.St? {
      ParseShowLoadStore(i);
    } else {
      ParseShowBr(i);
    }
  }

  /**
   * Every well-formed instruction has a line that assembles to a 16-bit word
   * decoding to that instruction.
   */
  lemma AssembleShow(i: Instr)
    requires WellFormed(i)
    ensures AssembleLine(Show(i)).Success?
    ensures |AssembleLine(Show(i)).value| == 16 && Decode(AssembleLine(Show(i)).value) == Some(i)
  {
    ParseShow(i);
    AssembleLineMeaning(Show(i));
  }

  /**
   * Every word of the four formats is produced by the assembler: the line
   * printed from its decoding assembles back to exactly that word.
   */
  lemma AssembleDecoded(w: string)
    requires Decode(w).Some?
    ensures AssembleLine(Show(Decode(w).value)) == Success(w)
  {
    var i := Decode(w).value;
    AssembleShow(i);
    DecodeInjective(AssembleLine(Show(i)).value, w);
  }
}
