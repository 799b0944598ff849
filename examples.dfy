/**
 * Worked examples of the assembler, and what the code as written does with
 * lines a stricter assembler would refuse.  Each well-formed example is
 * stated through the decoder: the word is 16 bits and decodes to the
 * instruction, which by Lc3.DecodeInjective fixes the word.
 */
module AssemblerExamples {
  import opened Results
  import opened Binary
  import opened Text
  import opened Lc3
  import opened Assembler
  import opened AssemblerMeaning

  /** `ADD R1 R2 1 5` gives a 16-bit word that decodes to ADD R1, R2, #5 (the word 0001 001 010 1 00101). */
  lemma ExampleAddImmediate()
    ensures AssembleLine("ADD R1 R2 1 5").Success?
    ensures |AssembleLine("ADD R1 R2 1 5").value| == 16
    ensures Decode(AssembleLine("ADD R1 R2 1 5").value) == Some(AddImm(1, 2, 5))
  {
    assert Show(AddImm(1, 2, 5)) == "ADD R1 R2 1 5";
    AssembleShow(AddImm(1, 2, 5));
  }

  /** `ADD R0 R1 000 R2` gives a 16-bit word that decodes to ADD R0, R1, R2 (the word 0001 000 001 0 00 010). */
  lemma ExampleAddRegister()
    ensures AssembleLine("ADD R0 R1 000 R2").Success?
    ensures |AssembleLine("ADD R0 R1 000 R2").value| == 16
    ensures Decode(AssembleLine("ADD R0 R1 000 R2").value) == Some(AddReg(0, 1, 2))
  {
    assert Show(AddReg(0, 1, 2)) == "ADD R0 R1 000 R2";
    AssembleShow(AddReg(0, 1, 2));
  }

  /** `LD R3 -5` gives a 16-bit word that decodes to LD R3 with offset -5 (the word 0010 011 111111011). */
  lemma ExampleLoad()
    ensures AssembleLine("LD R3 -5").Success?
    ensures |AssembleLine("LD R3 -5").value| == 16
    ensures Decode(AssembleLine("LD R3 -5").value) == Some(Ld(3, -5))
  {
    assert Show(Ld(3, -5)) == "LD R3 -5";
    AssembleShow(Ld(3, -5));
  }

  /** `ST R4 10` gives a 16-bit word that decodes to ST R4 with offset 10 (the word 0011 100 000001010). */
  lemma ExampleStore()
    ensures AssembleLine("ST R4 10").Success?
    ensures |AssembleLine("ST R4 10").value| == 16
    ensures Decode(AssembleLine("ST R4 10").value) == Some(St(4, 10))
  {
    assert Show(St(4, 10)) == "ST R4 10";
    AssembleShow(St(4, 10));
  }

  /** `BR nz 3` gives a 16-bit word that decodes to BR n, z with offset 3 (the word 0000 110 000000011). */
  lemma ExampleBranch()
    ensures AssembleLine("BR nz 3").Success?
    ensures |AssembleLine("BR nz 3").value| == 16
    ensures Decode(AssembleLine("BR nz 3").value) == Some(Br(true, true, false, 3))
  {
    assert Show(Br(true, true, false, 3)) == "BR nz 3";
    AssembleShow(Br(true, true, false, 3));
  }

  /** A blank line produces nothing; an unknown mnemonic is an error that names the line. */
  lemma ExampleSkippedAndUnsupported()
    ensures IsSkipped(Strip(" \t "))
    ensures AssembleLine("XYZ R0 R1") == Failure(UnsupportedInstruction("XYZ R0 R1"))
  {
    var s := "XYZ R0 R1";
    FirstDiffers(s, "ADD");
    FirstDiffers(s, "LD");
    FirstDiffers(s, "ST");
    FirstDiffers(s, "BR");
  }

  /** `STR R1 5` starts with "ST", so it goes to the ST packer, which never reads the mnemonic. */
  lemma ExamplePrefixDispatch()
    ensures AssembleLine("STR R1 5") == AssembleSt("STR R1 5")
  {
    FirstDiffers("STR R1 5", "ADD");
    FirstDiffers("STR R1 5", "LD");
    assert "STR R1 5"[..2] == "ST";
  }

  /** Only the second character of a register token is read: R12 is R1, and R8 needs four bits. */
  lemma ExampleRegisterTokens()
    ensures RegisterToBin("R12") == RegisterToBin("R1") == Success("001")
    ensures RegisterToBin("R8") == Success("1000")
  {
    assert FormatBin(1, 3) == "001" && FormatBin(8, 3) == "1000";
  }
}
