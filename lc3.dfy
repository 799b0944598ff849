/**
 * The LC-3 instruction words the assembler produces, read back field by
 * field.  `Decode` is an independent reading of the 16-bit layouts
 * (opcode in bits 15-12, then the operand fields); the assembler is proved
 * against it.
 */
module Lc3 {
  import opened Results
  import opened Binary

  /** The four instruction formats, with operands as numbers. */
  datatype Instr =
    | AddReg(dr: nat, sr1: nat, sr2: nat)
    | AddImm(dr: nat, sr1: nat, imm5: int)
    | Ld(dr: nat, offset: int)
    | St(sr: nat, offset: int)
    | Br(n: bool, z: bool, p: bool, offset: int)

  /** Every operand fits its field: registers R0-R7, IMM5 in [-16, 15], PCoffset9 in [-256, 255]. */
  predicate WellFormed(i: Instr) {
    match i
    case AddReg(dr, sr1, sr2) => dr < 8 && sr1 < 8 && sr2 < 8
    case AddImm(dr, sr1, imm5) => dr < 8 && sr1 < 8 && -16 <= imm5 <= 15
    case Ld(dr, offset) => dr < 8 && -256 <= offset <= 255
    case St(sr, offset) => sr < 8 && -256 <= offset <= 255
    case Br(_, _, _, offset) => -256 <= offset <= 255
  }

  lemma SignedBound(s: string)
    requires |s| >= 1
    ensures -(Pow2(|s| - 1) as int) <= Signed(s) < Pow2(|s| - 1)
  {
    UnsignedBound(s);
    LeadingBit(s);
  }

  lemma FieldBounds(w: string)
    requires |w| == 16
    ensures Unsigned(w[4..7]) < 8 && Unsigned(w[7..10]) < 8 && Unsigned(w[13..16]) < 8
    ensures -16 <= Signed(w[11..16]) <= 15
    ensures -256 <= Signed(w[7..16]) <= 255
  {
    Pow2Widths();
    UnsignedBound(w[4..7]);
    UnsignedBound(w[7..10]);
    UnsignedBound(w[13..16]);
    SignedBound(w[11..16]);
    SignedBound(w[7..16]);
  }

  /**
   * The instruction a 16-bit word encodes, or None when the word is not a
   * 16-character bit string or not one of the four formats (an ADD whose
   * bits 4-3 are not 00 in register mode is not one).
   */
  function Decode(w: string): (r: Option<Instr>)
    ensures r.Some? ==> |w| == 16 && IsBinary(w) && WellFormed(r.value)
  {
    if |w| != 16 || !IsBinary(w) then None
    else
      FieldBounds(w);
      var opcode := w[..4];
      if opcode == "0001" then
        if w[10] == '1' then
          Some(AddImm(Unsigned(w[4..7]), Unsigned(w[7..10]), Signed(w[11..16])))
        else if w[11..13] == "00" then
          Some(AddReg(Unsigned(w[4..7]), Unsigned(w[7..10]), Unsigned(w[13..16])))
        else
          None
      else if opcode == "0010" then
        Some(Ld(Unsigned(w[4..7]), Signed(w[7..16])))
      else if opcode == "0011" then
        Some(St(Unsigned(w[4..7]), Signed(w[7..16])))
      else if opcode == "0000" then
        Some(Br(w[4] == '1', w[5] == '1', w[6] == '1', Signed(w[7..16])))
      else
        None
  }

  /** ADD, immediate mode: 0001 DR SR1 1 IMM5. */
  lemma DecodeAddImm(dr: string, sr1: string, imm5: string)
    requires |dr| == 3 && |sr1| == 3 && |imm5| == 5
    requires IsBinary(dr) && IsBinary(sr1) && IsBinary(imm5)
    ensures Decode("0001" + dr + sr1 + "1" + imm5)
      == Some(AddImm(Unsigned(dr), Unsigned(sr1), Signed(imm5)))
  {
    AddLayout(dr, sr1, "1", imm5);
  }

  /** ADD, register mode: 0001 DR SR1 0 00 SR2. */
  lemma DecodeAddReg(dr: string, sr1: string, sr2: string)
    requires |dr| == 3 && |sr1| == 3 && |sr2| == 3
    requires IsBinary(dr) && IsBinary(sr1) && IsBinary(sr2)
    ensures Decode("0001" + dr + sr1 + "0" + "00" + sr2)
      == Some(AddReg(Unsigned(dr), Unsigned(sr1), Unsigned(sr2)))
  {
    AddLayout(dr, sr1, "0", "00" + sr2);
    var w := "0001" + dr + sr1 + "0" + "00" + sr2;
    assert w == "0001" + dr + sr1 + "0" + ("00" + sr2);
    assert w[11..13] == ("00" + sr2)[..2] == "00";
    assert w[13..16] == ("00" + sr2)[2..] == sr2;
    DecodeRegisterMode(w);
  }

  /** Where the fields of an ADD word sit: opcode, DR, SR1, the mode flag, and the last five bits. */
  lemma AddLayout(dr: string, sr1: string, flag: string, tail: string)
    requires |dr| == 3 && |sr1| == 3 && |flag| == 1 && |tail| == 5
    requires IsBinary(dr) && IsBinary(sr1) && IsBinary(flag) && IsBinary(tail)
    ensures var w := "0001" + dr + sr1 + flag + tail;
      |w| == 16 && IsBinary(w) && w[..4] == "0001" && w[4..7] == dr && w[7..10] == sr1
      && w[10] == flag[0] && w[11..16] == tail
  {
    BinaryConcat("0001", dr);
    BinaryConcat("0001" + dr, sr1);
    BinaryConcat("0001" + dr + sr1, flag);
    BinaryConcat("0001" + dr + sr1 + flag, tail);
  }

  lemma DecodeRegisterMode(w: string)
    requires |w| == 16 && IsBinary(w) && w[..4] == "0001" && w[10] == '0' && w[11..13] == "00"
    ensures Decode(w) == Some(AddReg(Unsigned(w[4..7]), Unsigned(w[7..10]), Unsigned(w[13..16])))
  {
  }

  /** LD, ST and BR: a 4-bit opcode, three bits of register or condition, then PCOFFSET9. */
  lemma DecodeOffsetForm(opcode: string, mid: string, offset: string)
    requires opcode in {"0010", "0011", "0000"}
    requires |mid| == 3 && |offset| == 9 && IsBinary(mid) && IsBinary(offset)
    ensures Decode(opcode + mid + offset) == Some(
      if opcode == "0010" then Ld(Unsigned(mid), Signed(offset))
      else if opcode == "0011" then St(Unsigned(mid), Signed(offset))
      else Br(mid[0] == '1', mid[1] == '1', mid[2] == '1', Signed(offset)))
  {
    var w := opcode + mid + offset;
    BinaryConcat(opcode, mid);
    BinaryConcat(opcode + mid, offset);
    assert w[..4] == opcode && w[4..7] == mid && w[7..16] == offset;
    assert w[4] == mid[0] && w[5] == mid[1] && w[6] == mid[2];
  }

  lemma UnsignedInjective(a: string, b: string)
    requires |a| == |b| >= 1 && IsBinary(a) && IsBinary(b) && Unsigned(a) == Unsigned(b)
    ensures a == b
  {
    FormatUnsigned(a);
    FormatUnsigned(b);
  }

  lemma SignedInjective(a: string, b: string)
    requires |a| == |b| >= 1 && IsBinary(a) && IsBinary(b) && Signed(a) == Signed(b)
    ensures a == b
  {
    SignedBound(a);
    LeadingBit(a);
    LeadingBit(b);
    UnsignedBound(a);
    UnsignedBound(b);
    assert a[0] == b[0];
    UnsignedInjective(a, b);
  }

  /** What a successful decoding says about the word, field by field. */
  lemma DecodedFields(w: string)
    requires Decode(w).Some?
    ensures |w| == 16 && IsBinary(w)
    ensures match Decode(w).value
      case AddImm(dr, sr1, imm5) =>
        w[..4] == "0001" && w[10] == '1'
        && dr == Unsigned(w[4..7]) && sr1 == Unsigned(w[7..10]) && imm5 == Signed(w[11..16])
      case AddReg(dr, sr1, sr2) =>
        w[..4] == "0001" && w[10] == '0' && w[11..13] == "00"
        && dr == Unsigned(w[4..7]) && sr1 == Unsigned(w[7..10]) && sr2 == Unsigned(w[13..16])
      case Ld(dr, offset) => w[..4] == "0010" && dr == Unsigned(w[4..7]) && offset == Signed(w[7..16])
      case St(sr, offset) => w[..4] == "0011" && sr == Unsigned(w[4..7]) && offset == Signed(w[7..16])
      case Br(n, z, p, offset) =>
        w[..4] == "0000" && (n <==> w[4] == '1') && (z <==> w[5] == '1') && (p <==> w[6] == '1')
        && offset == Signed(w[7..16])
  {
  }

  /** Words that agree on every field are equal. */
  lemma SameFields(w1: string, w2: string)
    requires |w1| == |w2| == 16
    requires w1[..4] == w2[..4] && w1[4..7] == w2[4..7]
    requires w1[7..10] == w2[7..10] && w1[10] == w2[10] && w1[11..16] == w2[11..16]
    ensures w1 == w2
  {
    assert w1 == w1[..4] + w1[4..7] + w1[7..10] + [w1[10]] + w1[11..16];
    assert w2 == w2[..4] + w2[4..7] + w2[7..10] + [w2[10]] + w2[11..16];
  }

  /** Two distinct words never decode to the same instruction. */
  lemma DecodeInjective(w1: string, w2: string)
    requires Decode(w1).Some? && Decode(w1) == Decode(w2)
    ensures w1 == w2
  {
    var i := Decode(w1).value;
    if i.AddImm? {
      SameAddImm(w1, w2);
    } else if i.AddReg? {
      SameAddReg(w1, w2);
    } else {
      SameOffsetForm(w1, w2);
    }
  }

  lemma SameAddImm(w1: string, w2: string)
    requires Decode(w1).Some? && Decode(w1) == Decode(w2) && Decode(w1).value.AddImm?
    ensures w1 == w2
  {
    DecodedFields(w1);
    DecodedFields(w2);
    SameRegister(w1, w2, 4);
    SameRegister(w1, w2, 7);
    SignedInjective(BinarySlice(w1, 11, 16), BinarySlice(w2, 11, 16));
    SameFields(w1, w2);
  }

  lemma SameAddReg(w1: string, w2: string)
    requires Decode(w1).Some? && Decode(w1) == Decode(w2) && Decode(w1).value.AddReg?
    ensures w1 == w2
  {
    DecodedFields(w1);
    DecodedFields(w2);
    SameRegister(w1, w2, 4);
    SameRegister(w1, w2, 7);
    SameRegister(w1, w2, 13);
    assert w1[11..16] == w1[11..13] + w1[13..16];
    assert w2[11..16] == w2[11..13] + w2[13..16];
    SameFields(w1, w2);
  }

  lemma SameOffsetForm(w1: string, w2: string)
    requires Decode(w1).Some? && Decode(w1) == Decode(w2)
    requires Decode(w1).value.Ld? || Decode(w1).value.St? || Decode(w1).value.Br?
    ensures w1 == w2
  {
    DecodedFields(w1);
    DecodedFields(w2);
    if Decode(w1).value.Br? {
      assert w1[4..7] == [w1[4], w1[5], w1[6]] && w2[4..7] == [w2[4], w2[5], w2[6]];
    } else {
      SameRegister(w1, w2, 4);
    }
    SignedInjective(BinarySlice(w1, 7, 16), BinarySlice(w2, 7, 16));
    OffsetFields(w1, w2);
  }

  /** A slice of a bit string, known to be a bit string. */
  function BinarySlice(w: string, i: nat, j: nat): (s: string)
    requires i <= j <= |w| && IsBinary(w)
    ensures s == w[i..j] && IsBinary(s)
  {
    w[i..j]
  }

  lemma SameRegister(w1: string, w2: string, at: nat)
    requires |w1| == |w2| && at + 3 <= |w1| && IsBinary(w1) && IsBinary(w2)
    requires Unsigned(w1[at..at + 3]) == Unsigned(w2[at..at + 3])
    ensures w1[at..at + 3] == w2[at..at + 3]
  {
    UnsignedInjective(BinarySlice(w1, at, at + 3), BinarySlice(w2, at, at + 3));
  }

  lemma OffsetFields(w1: string, w2: string)
    requires |w1| == |w2| == 16
    requires w1[..4] == w2[..4] && w1[4..7] == w2[4..7] && w1[7..16] == w2[7..16]
    ensures w1 == w2
  {
    assert w1 == w1[..4] + w1[4..7] + w1[7..16];
    assert w2 == w2[..4] + w2[4..7] + w2[7..16];
  }
}
