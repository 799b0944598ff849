# LC-3 subset assembler and control-store converter, in Dafny

This project models two small programs and proves properties of the model.

The first is an assembler for four LC-3 instructions: ADD (register and immediate mode), LD, ST and BR. It reads a text program line by line and writes one 16-character binary word per instruction.

The second is a converter that turns a control-store table into one bit string per row.

The model follows the Python code as written, branch for branch:

- **Field encoders.** `register_to_bin`, `nzp_to_bin`, `pcoffset9_to_bin` and `imm5_to_bin` are pure functions in `Assembler`. They work on the Python semantics:
  - `format(v, '0wb')` zero-pads and never truncates (`Binary.FormatBin`);
  - `v & 0x1FF` and `v & 0x1F` are taken modulo 512 and 32.
- **Packers.** Each packer splits the whole line with Python's whitespace rules (`Text.Split`) and reads its operands by position. Token 0 is never read again.
- **Dispatch.** `Assembler.AssembleLine` goes by prefix, in the code's order: "ADD", "LD", "ST", "BR".
- **Driver.** The line loop of `assemble_instructions_from_file` is the method `Assembler.AssembleProgram`. It strips each line and skips blank and `;` lines.
  - It assembles every other line and appends its word.
  - It stops at the first error. The words already written stay written, and the error of the failing line is returned.
- **Converter.** The row and cell loops of `convert.py` are the method `ControlStore.ConvertRows`. It works on rows already split into cells.

## What is proved against what

The assembled words are proved against an independent reading of the LC-3 word layouts, `Lc3.Decode`. It maps a 16-character bit string to a typed instruction (`Lc3.Instr`).

`AssemblerMeaning.ParseLine` reads a line as a typed instruction. It chooses the mnemonic and checks operands in the same order the packers do.

The central lemma is `AssemblerMeaning.AssembleLineMeaning`:
- assembling a line fails exactly when reading it fails, and with the same error;
- otherwise the word is 16 bits exactly when every register digit is 0-7;
- in that case the word decodes to the instruction the line reads as.

The round trip is closed in both directions:
- `AssemblerMeaning.Show` prints an instruction as a line, and `ParseShow` reads it back.
- `AssembleShow`: every well-formed instruction is the meaning of some assembled word.
- `AssembleDecoded`: every decodable word is what the assembler produces for the printed form of its instruction.
- `Lc3.DecodeInjective`: a word is fixed by its decoding.

## Behaviour of the code worth knowing

- **Register tokens are not validated.** The code only runs `int(register[1])` and formats the digit with `'03b'`:
  - `R12` reads as register 1;
  - `X3` reads as register 3;
  - `R8` and `R9` give a four-character field, so each such register operand makes the word one character longer than 16 (`ADD R8 R9 000 R8` gives 19 characters);
  - a token without a digit in second position fails as a malformed operand.
- **Dispatch is by line prefix.** `STR R1 5` goes to the ST packer, and `ADDX ...` goes to the ADD packer.
- **BR condition token.** The BR packer reads the condition codes from token 1, as a separate token. `BRnz 3` therefore has only two tokens and fails on the missing offset.

## Model

| member | source | states |
|---|---|---|
| Assembler.RegisterNumber | programs/assember.py:56 | `int(register[1])`: succeeds exactly when the second character is an ASCII decimal digit, giving that digit (0-9); otherwise a malformed-operand error |
| Assembler.RegisterToBin | programs/assember.py:54-56 | succeeds exactly when the second character is a digit; the result is a bit string whose value is that digit; it is 3 characters exactly when the digit is 0-7, and exactly 4 characters starting with 1 for 8 and 9 |
| Assembler.Token | programs/assember.py:18-19 | `parts[k]`: succeeds exactly when the token exists and gives it; otherwise a malformed-operand error (IndexError) |
| Assembler.IntOperand | programs/assember.py:19 | `int(parts[k])`: succeeds exactly when the token exists and is an integer (ASCII digits, see `Text.ParseInt`), with the value `int()` gives; otherwise a malformed-operand error |
| Assembler.NzpToBin | programs/assember.py:2-11 | always three bits; bit k is 1 exactly when the k-th of `n`, `z`, `p` occurs anywhere in the token (order, repeats and other characters do not matter) |
| Assembler.PcOffset9ToBin | programs/assember.py:24-29 | succeeds exactly for -256..255, else an offset-out-of-range error; nine bits whose unsigned value is `value & 0x1FF` and whose two's-complement value is `value`; plain zero-padded binary for non-negative values |
| Assembler.Imm5ToBin | programs/assember.py:58-63 | succeeds exactly for -16..15, else an immediate-out-of-range error; five bits whose unsigned value is `value & 0x1F` and whose two's-complement value is `value` |
| Assembler.MaskOffset9 | programs/assember.py:27 | for a value in range, the nine-bit formatting of `value & 0x1FF` is nine long and reads back as `value` in two's complement |
| Assembler.MaskImm5 | programs/assember.py:61 | for a value in range, the five-bit formatting of `value & 0x1F` is five long and reads back as `value` in two's complement |
| Assembler.AssembleAdd | programs/assember.py:65-87 | a successful ADD is a bit string starting 0001, from a line of at least five tokens whose fourth is "1" or "000"; it is 16 bits exactly when DR, SR1 and (in register mode) SR2 are R0-R7 |
| Assembler.AddImmediateMode | programs/assember.py:76-79 | immediate mode appends flag 1 and IMM5 to opcode, DR and SR1: a bit string 10 characters longer than the two register fields |
| Assembler.AddRegisterMode | programs/assember.py:80-83 | register mode appends flag 0, bits 00 and SR2; the word has its minimal length exactly when SR2 is R0-R7 |
| Assembler.AssembleRegisterOffset | programs/assember.py:31-51 | the shared LD/ST layout: the opcode, then the register, then PCoffset9; 16 bits exactly when the register is R0-R7 |
| Assembler.AssembleLd | programs/assember.py:31-40 | a successful LD is a bit string starting 0010; 16 bits exactly when DR is R0-R7 |
| Assembler.AssembleSt | programs/assember.py:42-51 | a successful ST is a bit string starting 0011; 16 bits exactly when SR is R0-R7 |
| Assembler.AssembleBr | programs/assember.py:13-22 | a BR succeeds exactly when there are at least three tokens and the third is an integer in -256..255; then it is a 16-bit string starting 0000 |
| Assembler.AddReadsTokens1To4 | programs/assember.py:65-87 | two lines whose tokens 1 to 4 agree (present and equal, or both missing) give the same ADD result, whatever the mnemonic and any further tokens are |
| Assembler.RegisterOffsetReadsTokens1And2 | programs/assember.py:31-51 | two lines whose tokens 1 and 2 agree give the same LD/ST result, whatever the mnemonic and any further tokens are |
| Assembler.BrReadsTokens1And2 | programs/assember.py:13-22 | two lines whose tokens 1 and 2 agree give the same BR result, whatever the mnemonic and any further tokens are |
| Assembler.IsSkipped | programs/assember.py:94 | a non-empty stripped line is skipped exactly when it starts with `;` (the empty line is skipped too) |
| Assembler.AssembleLine | programs/assember.py:97-111 | a successful word is a bit string of at least 16 characters whose opcode follows the first matching prefix: ADD 0001, else LD 0010, else ST 0011, else BR 0000; the unsupported-instruction error occurs exactly when no prefix matches, and it carries the line |
| Assembler.Kept | programs/assember.py:92-95 | the kept lines are no more than the input lines, each already stripped and none blank or a `;` comment |
| Assembler.KeptAppend | programs/assember.py:92-95 | the stripped, non-skipped lines of a concatenation are those of each part, in order |
| Assembler.KeptPrefix | programs/assember.py:92-95 | the lines kept from a prefix of the input are a prefix of the lines kept from all of it |
| Assembler.KeptNext | programs/assember.py:92-95 | a line that is not skipped is kept right after what the lines before it keep |
| Assembler.AssembleProgram | programs/assember.py:89-111 | the words written are, one for one and in order, the assemblies of the first kept lines; with no error every kept line has its word; on an error the next kept line is the one whose assembly fails with that error |
| AssemblerMeaning.AddAgrees | programs/assember.py:65-87 | the ADD packer fails exactly when the typed reading fails, with the same error, and otherwise encodes what it reads |
| AssemblerMeaning.RegisterOffsetAgrees | programs/assember.py:31-51 | the same agreement for LD and ST |
| AssemblerMeaning.BrAgrees | programs/assember.py:13-22 | the same agreement for BR; the condition bits are the letters present in token 1 |
| AssemblerMeaning.AssembleLineMeaning | programs/assember.py:97-111 | for every line, the dispatched assembly agrees with the typed reading: same error, or a word that is 16 bits exactly when the registers are R0-R7 and then decodes to the instruction read |
| AssemblerMeaning.ParseShow | programs/assember.py:97-111 | the printed form of any well-formed instruction is read back as that instruction |
| AssemblerMeaning.AssembleShow | programs/assember.py:97-111 | every well-formed instruction has a line that assembles to a 16-bit word decoding to it |
| AssemblerMeaning.AssembleDecoded | programs/assember.py:97-111 | every decodable word is exactly what the assembler produces for the printed form of its instruction |
| Lc3.Decode | programs/assember.py:13-87 | a decoded word is a 16-character bit string and its instruction is well formed: registers R0-R7, IMM5 in -16..15, PCoffset9 in -256..255 |
| Lc3.DecodeAddImm | programs/assember.py:76-79 | 0001 DR SR1 1 IMM5 decodes to an immediate ADD of those fields |
| Lc3.DecodeAddReg | programs/assember.py:80-83 | 0001 DR SR1 0 00 SR2 decodes to a register ADD of those fields |
| Lc3.DecodeOffsetForm | programs/assember.py:13-51 | opcode, a three-bit field and PCoffset9 decode to LD, ST or BR of those fields |
| Lc3.DecodeInjective | programs/assember.py:13-87 | two words that decode to the same instruction are the same word |
| Binary.FormatBin | programs/assember.py:27 | `format(v, '0wb')`: a bit string whose value is `v`, at least one and at least `w` characters long, for `w >= 1` exactly `w` long when `v < 2^w`; when longer than `w` (and than one character) it has no leading zero |
| Binary.TwosComplementRoundTrip | programs/assember.py:27 | a value in the signed range of `w` bits, wrapped and formatted to `w` bits, is `w` long and reads back as the value |
| Binary.FormatUnsigned | programs/assember.py:56 | formatting the value of a bit string to its own width gives the string back |
| Text.Strip | programs/assember.py:93 | `str.strip()`: empty exactly for all-whitespace input; otherwise a slice of the input with whitespace outside it and non-whitespace at both ends |
| Text.Split | programs/assember.py:15 | `str.split()`: every token is non-empty and free of whitespace |
| Text.SplitAtSpace | programs/assember.py:15 | `str.split()` on a string with a whitespace character in it is the split of the part before it followed by the split of the part after it |
| Text.SplitWord | programs/assember.py:15 | `str.split()` of a non-empty whitespace-free string is that string alone |
| Text.TokenLengthUnique | programs/assember.py:15 | a token runs exactly up to the first whitespace character |
| Text.SplitJoinSpaced | programs/assember.py:15 | splitting whitespace-free tokens joined by spaces gives the tokens back |
| Text.ParseInt | programs/assember.py:19 | `int(token)` succeeds exactly for an optionally signed run of decimal digits; a plain digit run gives its decimal value, `-` before the digits its negation and `+` the value itself (leading zeros allowed) |
| Text.StripStripped | programs/assember.py:93 | stripping a stripped line changes nothing |
| Text.StartsWithChars | programs/assember.py:94 | `str.startswith`: the prefix fits and agrees with the string character by character |
| Text.ParseShowInt | programs/assember.py:19 | `int()` of an integer's decimal spelling gives that integer |
| AssemblerExamples.ExampleAddImmediate | programs/assember.py:76-79 | `ADD R1 R2 1 5` assembles to a 16-bit word decoding to ADD R1, R2, #5 |
| AssemblerExamples.ExampleAddRegister | programs/assember.py:80-83 | `ADD R0 R1 000 R2` assembles to a 16-bit word decoding to ADD R0, R1, R2 |
| AssemblerExamples.ExampleLoad | programs/assember.py:31-40 | `LD R3 -5` assembles to a 16-bit word decoding to LD R3 with offset -5 |
| AssemblerExamples.ExampleStore | programs/assember.py:42-51 | `ST R4 10` assembles to a 16-bit word decoding to ST R4 with offset 10 |
| AssemblerExamples.ExampleBranch | programs/assember.py:13-22 | `BR nz 3` assembles to a 16-bit word decoding to BR with n and z set and offset 3 |
| AssemblerExamples.ExampleSkippedAndUnsupported | programs/assember.py:93-111 | a whitespace-only line is skipped; `XYZ R0 R1` fails as unsupported and the error carries the line |
| AssemblerExamples.ExamplePrefixDispatch | programs/assember.py:97-105 | `STR R1 5` is handed to the ST packer |
| AssemblerExamples.ExampleRegisterTokens | programs/assember.py:54-56 | `R12` encodes like `R1` as 001, and `R8` encodes as 1000 |
| ControlStore.Cells | ControlSignals/convert.py:19 | `row[1:]`: one cell fewer than the row (none for an empty row), cell j being column j+1 |
| ControlStore.CellBit | ControlSignals/convert.py:19-27 | a cell gives a bit, which is 1 exactly when the cell is "1" |
| ControlStore.ConvertRows | ControlSignals/convert.py:8-30 | no header row gives no output (`next` raises); otherwise there is one bit string per row after the header, one bit per cell after the label column, and each bit is 1 exactly when its cell is "1" |

## Left out

- File I/O is left out. `AssembleProgram` takes the input file's lines and returns the words instead of writing `word + '\n'` to a file. `ConvertRows` returns its lines instead of writing them.
- The `print(parts)` calls in the packers are left out; they only produce console output.
- The module-level calls that run each program on fixed file names are left out. They only pick the files.
- CSV tokenization (quoting, delimiters) is left out. `ConvertRows` receives rows already split into cells, as `csv.reader` yields them.
- Python exceptions are collapsed into one `Error` value per kind:
  - `IndexError` from a missing token and `ValueError` from `int()` are both `MalformedOperand`;
  - the message text of each `ValueError` is not modelled, except that an unsupported line carries the line.
- Text.ParseInt: does not accept underscores between digits or non-ASCII Unicode digits, which Python's `int()` also accepts. Leading and trailing whitespace cannot occur in a token produced by `split()`.
- Assembler.RegisterNumber: accepts only an ASCII digit after `R`; Python's `int()` also reads a non-ASCII decimal digit, so `R３` (full-width 3) is register 3 in Python but a malformed operand here.
- Assembler.IntOperand: inherits `Text.ParseInt`'s ASCII-only digits and its rejection of underscores.
- Characters are Dafny `char`s, that is Unicode scalar values (Python code points without lone surrogates). Whitespace is Python's `str.isspace` set.
