/** The encodings of sample lines in the style of the assembler's own demo
    list: well-formed lines with varying whitespace and mnemonic case, and the
    lines that list comments out because they should fail. */
module Samples {
  import opened Errors
  import opened Text
  import opened Tokens
  import opened Tables
  import opened Encoder
  import opened EncoderProperties

  // ---------------------------------------------------------------------
  // Lines of the form `mnemonic a, b`
  // ---------------------------------------------------------------------

  /** One argument as it is written: no comma inside it and no whitespace at
      either end. */
  predicate IsArgument(a: string) {
    a != [] && ',' !in a && !InClass(a[0], Space) && !InClass(a[|a| - 1], Space)
  }

  /** Whitespace before the mnemonic, between the mnemonic and the first
      argument, on either side of the comma and at the end of the line is
      ignored: a line with a known mnemonic and two arguments encodes by its
      instruction's layout over exactly those two arguments. */
  lemma TwoArgumentLine(pre: string, m: string, sp1: string, a: string, q1: string, sp2: string, b: string, q2: string)
    requires AllIn(pre, Space) && |m| >= 1 && AllIn(m, Word) && Lower(m) in INSTRUCTIONS
    requires |sp1| >= 1 && AllIn(sp1, Space) && AllIn(q1, Space) && AllIn(sp2, Space) && AllIn(q2, Space)
    requires IsArgument(a) && IsArgument(b)
    ensures EncodeInstruction(pre + m + sp1 + a + q1 + [','] + sp2 + b + q2) == Layout(Lower(m), [a, b])
  {
    var rest := sp1 + a + q1 + [','] + sp2 + b + q2;
    var line := pre + m + sp1 + a + q1 + [','] + sp2 + b + q2;
    LineParts(pre, m, sp1, a, q1, sp2, b, q2);
    ExtractOf(pre, m, rest);
    assert line[|pre| + |m|..] == rest;
    ArgumentsOfRest(sp1, a, q1, sp2, b, q2);
    InstructionLayout(line);
  }

  /** A line with a known mnemonic and a single argument encodes by its
      instruction's layout over that one argument. */
  lemma OneArgumentLine(pre: string, m: string, sp: string, a: string, post: string)
    requires AllIn(pre, Space) && |m| >= 1 && AllIn(m, Word) && Lower(m) in INSTRUCTIONS
    requires |sp| >= 1 && AllIn(sp, Space) && IsArgument(a) && AllIn(post, Space)
    ensures EncodeInstruction(pre + m + sp + a + post) == Layout(Lower(m), [a])
  {
    var line := pre + m + sp + a + post;
    assert line == pre + m + (sp + a + post);
    assert (sp + a + post)[0] == sp[0];
    ExtractOf(pre, m, sp + a + post);
    assert line[|pre| + |m|..] == sp + a + post;
    OneArgument(sp, a, post);
    InstructionLayout(line);
  }

  lemma LineParts(pre: string, m: string, sp1: string, a: string, q1: string, sp2: string, b: string, q2: string)
    requires |sp1| >= 1 && AllIn(sp1, Space)
    ensures pre + m + sp1 + a + q1 + [','] + sp2 + b + q2 == pre + m + (sp1 + a + q1 + [','] + sp2 + b + q2)
    ensures !InClass((sp1 + a + q1 + [','] + sp2 + b + q2)[0], Word)
  {
    assert (sp1 + a + q1 + [','] + sp2 + b + q2)[0] == sp1[0];
  }

  /** The argument list after the mnemonic is the two stripped arguments. */
  lemma ArgumentsOfRest(sp1: string, a: string, q1: string, sp2: string, b: string, q2: string)
    requires AllIn(sp1, Space) && AllIn(q1, Space) && AllIn(sp2, Space) && AllIn(q2, Space)
    requires IsArgument(a) && IsArgument(b)
    ensures Arguments(sp1 + a + q1 + [','] + sp2 + b + q2) == [a, b]
  {
    assert sp1 + a + q1 + [','] + sp2 + b + q2 == (sp1 + a + q1) + [','] + (sp2 + b + q2);
    ArgumentsConcat(sp1 + a + q1, sp2 + b + q2);
    OneArgument(sp1, a, q1);
    OneArgument(sp2, b, q2);
  }

  /** One argument with whitespace around it is that argument. */
  lemma OneArgument(sp: string, a: string, post: string)
    requires AllIn(sp, Space) && IsArgument(a) && AllIn(post, Space)
    ensures Arguments(sp + a + post) == [a]
  {
    assert ',' !in sp + a + post;
    ArgumentsSingle(sp + a + post);
    StripOf(sp, a, post);
  }

  // ---------------------------------------------------------------------
  // Values of the sample arguments
  // ---------------------------------------------------------------------

  /** `$n` for a one-digit `n`: accepted up to and including
      `NUM_REGISTERS`, out of range above it. */
  lemma RegisterValue(s: string, n: nat)
    requires n <= 9 && s == ['$', DigitChar(n)]
    ensures ParseRegister(s) == if n <= NUM_REGISTERS then Ok(n) else Err(RegisterOutOfRange(s))
  {
    RegisterBound(n);
    assert ToDigits(n, 10) == [DigitChar(n)];
  }

  lemma OpcodeFills()
    ensures ZFill("000", 10) == "0000000000" && ZFill("001", 10) == "0000000001"
  {
    assert Zeros(7) == "0000000";
  }

  lemma RegisterZeroBits()
    ensures ZFill(ToBin(0), 3) == "000"
  {
    assert ToBin(0) == "0";
    assert Zeros(2) == "00";
  }

  lemma RegisterOneBits()
    ensures ZFill(ToBin(1), 3) == "001"
  {
    assert ToBin(1) == "1";
    assert Zeros(2) == "00";
  }

  lemma RegisterFourBits()
    ensures ZFill(ToBin(4), 3) == "100"
  {
    assert ToDigits(2, 2) == ToDigits(1, 2) + [DigitChar(0)];
    assert ToBin(4) == ToDigits(2, 2) + [DigitChar(0)];
    assert Zeros(0) == "";
  }

  lemma RegisterEightBits()
    ensures ZFill(ToBin(8), 3) == "1000"
  {
    assert ToDigits(2, 2) == ToDigits(1, 2) + [DigitChar(0)];
    assert ToDigits(4, 2) == ToDigits(2, 2) + [DigitChar(0)];
    assert ToBin(8) == ToDigits(4, 2) + [DigitChar(0)];
  }

  lemma RegisterTwoBits()
    ensures ZFill(ToBin(2), 3) == "010"
  {
    assert ToBin(2) == ToDigits(1, 2) + [DigitChar(0)];
    assert Zeros(1) == "0";
  }

  lemma RegisterThreeBits()
    ensures ZFill(ToBin(3), 3) == "011"
  {
    assert ToBin(3) == ToDigits(1, 2) + [DigitChar(1)];
    assert Zeros(1) == "0";
  }

  lemma LiteralOneBits()
    ensures ZFill(ToBin(1), 16) == "0000000000000001"
  {
    assert ToBin(1) == "1";
    assert Zeros(15) == "000000000000000";
  }

  /** The sample words, field by field. */
  lemma SampleConcatenations()
    ensures "0000000000" + "000" + "001" == "0000000000000001"
    ensures "0000000001" + "100" + "000" == "0000000001100000"
    ensures "0000000000" + "1000" + "000" == "00000000001000000"
    ensures "0000000000" + "010" + "011" == "0000000000010011"
  {
  }

  /** The layouts of the sample mnemonics. */
  lemma SampleLayouts(args: seq<string>)
    ensures Layout("mv", args) == RegisterPairEncoding("000", args)
    ensures Layout("add", args) == RegisterPairEncoding("010", args)
    ensures Layout("sub", args) == RegisterPairEncoding("011", args)
    ensures Layout("mvi", args) == ImmediateEncoding("001", args)
  {
  }

  /** A register-to-register word over two accepted registers. */
  lemma RegisterPairOf(opcode: string, a: string, b: string, x: nat, y: nat)
    requires ParseRegister(a) == Ok(x) && ParseRegister(b) == Ok(y)
    ensures RegisterPairEncoding(opcode, [a, b]) == Ok([ZFill(opcode, 10) + ZFill(ToBin(x), 3) + ZFill(ToBin(y), 3)])
  {
  }

  /** The words of `mvi` over an accepted register and literal. */
  lemma ImmediateOf(a: string, b: string, x: nat, v: nat)
    requires ParseRegister(a) == Ok(x) && ParseNumericLiteral(b) == Ok(v)
    ensures ImmediateEncoding("001", [a, b]) == Ok([ZFill("001", 10) + ZFill(ToBin(x), 3) + "000", ZFill(ToBin(v), 16)])
  {
  }

  /** `0x1` is one. */
  lemma HexOne()
    ensures ParseNumericLiteral("0x1") == Ok(1)
  {
    assert "0x1" == ['0', 'x'] + "1" + "";
    assert "1"[..0] == "";
    HexSyntax('x', "1", "");
  }

  /** `0x10` is sixteen: the hexadecimal pattern wins although the decimal
      pattern matches its leading `0`. */
  lemma HexSixteen()
    ensures MatchDecimal("0x10") == Some("0")
    ensures ParseNumericLiteral("0x10") == Ok(16)
  {
    assert "0x10" == ['0', 'x'] + "10" + "";
    ValueOfHexSixteen();
    HexSyntax('x', "10", "");
    HexMatched('x', "10", "");
    HexTakesPriority("0x10");
  }

  lemma ValueOfHexSixteen()
    ensures Value("10", 16) == 16
  {
    assert "10"[..1] == "1" && "1"[..0] == "";
  }

  // ---------------------------------------------------------------------
  // Whole lines
  // ---------------------------------------------------------------------

  /** `    mv $0, $1`: one word, opcode 000 and registers 0 and 1. */
  lemma MoveLine()
    ensures EncodeInstruction("    mv $0, $1") == Ok(["0000000000000001"])
  {
    assert "    mv $0, $1" == "    " + "mv" + " " + "$0" + "" + [','] + " " + "$1" + "";
    assert Lower("mv") == "mv";
    TwoArgumentLine("    ", "mv", " ", "$0", "", " ", "$1", "");
    MoveWord();
  }

  lemma MoveWord()
    ensures Layout("mv", ["$0", "$1"]) == Ok(["0000000000000001"])
  {
    SampleLayouts(["$0", "$1"]);
    RegisterValue("$0", 0);
    RegisterValue("$1", 1);
    RegisterPairOf("000", "$0", "$1", 0, 1);
    MoveBits();
  }

  lemma MoveBits()
    ensures ZFill("000", 10) + ZFill(ToBin(0), 3) + ZFill(ToBin(1), 3) == "0000000000000001"
  {
    OpcodeFills();
    RegisterZeroBits();
    RegisterOneBits();
    SampleConcatenations();
  }

  /** ` mvI $4, 0x1`: the mnemonic's case is ignored; two words, the first
      with opcode 001 and register 4, the second the literal 1. */
  lemma MoveImmediateLine()
    ensures EncodeInstruction(" mvI $4, 0x1") == Ok(["0000000001100000", "0000000000000001"])
  {
    assert " mvI $4, 0x1" == " " + "mvI" + " " + "$4" + "" + [','] + " " + "0x1" + "";
    assert Lower("mvI") == "mvi";
    TwoArgumentLine(" ", "mvI", " ", "$4", "", " ", "0x1", "");
    MoveImmediateWords();
  }

  lemma MoveImmediateWords()
    ensures Layout("mvi", ["$4", "0x1"]) == Ok(["0000000001100000", "0000000000000001"])
  {
    SampleLayouts(["$4", "0x1"]);
    RegisterValue("$4", 4);
    HexOne();
    ImmediateOf("$4", "0x1", 4, 1);
    MoveImmediateBits();
  }

  lemma MoveImmediateBits()
    ensures ZFill("001", 10) + ZFill(ToBin(4), 3) + "000" == "0000000001100000"
    ensures ZFill(ToBin(1), 16) == "0000000000000001"
  {
    OpcodeFills();
    RegisterFourBits();
    LiteralOneBits();
    SampleConcatenations();
  }

  /** `add $7, $9`: register 9 is out of range. */
  lemma OutOfRangeLine()
    ensures EncodeInstruction("add $7, $9") == Err(RegisterOutOfRange("$9"))
  {
    assert "add $7, $9" == "" + "add" + " " + "$7" + "" + [','] + " " + "$9" + "";
    assert Lower("add") == "add";
    TwoArgumentLine("", "add", " ", "$7", "", " ", "$9", "");
    OutOfRangeWord();
  }

  lemma OutOfRangeWord()
    ensures Layout("add", ["$7", "$9"]) == Err(RegisterOutOfRange("$9"))
  {
    SampleLayouts(["$7", "$9"]);
    RegisterValue("$7", 7);
    RegisterValue("$9", 9);
  }

  /** `add $d, $2`: `$d` is not a register. */
  lemma NotARegisterLine()
    ensures EncodeInstruction("add $d, $2") == Err(CouldNotParse("$d", Register))
  {
    assert "add $d, $2" == "" + "add" + " " + "$d" + "" + [','] + " " + "$2" + "";
    assert Lower("add") == "add";
    TwoArgumentLine("", "add", " ", "$d", "", " ", "$2", "");
    NotARegisterWord();
  }

  lemma NotARegisterWord()
    ensures Layout("add", ["$d", "$2"]) == Err(CouldNotParse("$d", Register))
  {
    SampleLayouts(["$d", "$2"]);
    assert MatchRegister("$d").None?;
  }

  /** `mv $8, $0`: register 8 passes the check and widens the word to 17
      bits. */
  lemma RegisterEightLine()
    ensures EncodeInstruction("mv $8, $0") == Ok(["00000000001000000"])
  {
    assert "mv $8, $0" == "" + "mv" + " " + "$8" + "" + [','] + " " + "$0" + "";
    assert Lower("mv") == "mv";
    TwoArgumentLine("", "mv", " ", "$8", "", " ", "$0", "");
    RegisterEightWord();
  }

  lemma RegisterEightWord()
    ensures Layout("mv", ["$8", "$0"]) == Ok(["00000000001000000"])
  {
    SampleLayouts(["$8", "$0"]);
    RegisterValue("$8", 8);
    RegisterValue("$0", 0);
    RegisterPairOf("000", "$8", "$0", 8, 0);
    RegisterEightWordBits();
  }

  lemma RegisterEightWordBits()
    ensures ZFill("000", 10) + ZFill(ToBin(8), 3) + ZFill(ToBin(0), 3) == "00000000001000000"
  {
    OpcodeFills();
    RegisterEightBits();
    RegisterZeroBits();
    SampleConcatenations();
  }
  /** `mv $0`: the second register is missing. */
  lemma MissingSecondLine()
    ensures EncodeInstruction("mv $0") == Err(MissingArgument(1))
  {
    assert "mv $0" == "" + "mv" + " " + "$0" + "";
    assert Lower("mv") == "mv";
    OneArgumentLine("", "mv", " ", "$0", "");
    MissingSecondWord();
  }

  lemma MissingSecondWord()
    ensures Layout("mv", ["$0"]) == Err(MissingArgument(1))
  {
    SampleLayouts(["$0"]);
    RegisterValue("$0", 0);
  }

  /** `mv` alone: the empty rest of the line splits into one empty argument,
      which is not a register. */
  lemma BareMnemonicLine()
    ensures EncodeInstruction("mv") == Err(CouldNotParse("", Register))
  {
    BareMnemonicLayout();
    SampleLayouts([""]);
    assert MatchRegister("").None?;
  }

  lemma BareMnemonicLayout()
    ensures EncodeInstruction("mv") == Layout("mv", [""])
  {
    assert Lower("mv") == "mv";
    assert "mv" == "" + "mv" + "";
    ExtractOf("", "mv", "");
    assert "mv"[2..] == "";
    EmptyArguments();
    InstructionLayout("mv");
  }

  lemma EmptyArguments()
    ensures Arguments("") == [""]
  {
    ArgumentsSingle("");
  }

  /** `mvi $0, 0x12345`: the literal is larger than `MAX_LITERAL_VALUE`. */
  lemma OversizedLine()
    ensures EncodeInstruction("mvi $0, 0x12345") == Err(OversizedLiteral("0x12345"))
  {
    assert "mvi $0, 0x12345" == "" + "mvi" + " " + "$0" + "" + [','] + " " + "0x12345" + "";
    assert Lower("mvi") == "mvi";
    TwoArgumentLine("", "mvi", " ", "$0", "", " ", "0x12345", "");
    OversizedWord();
  }

  lemma OversizedWord()
    ensures Layout("mvi", ["$0", "0x12345"]) == Err(OversizedLiteral("0x12345"))
  {
    SampleLayouts(["$0", "0x12345"]);
    RegisterValue("$0", 0);
    OversizedHex();
  }

  lemma OversizedHex()
    ensures ParseNumericLiteral("0x12345") == Err(OversizedLiteral("0x12345"))
  {
    assert "0x12345" == ['0', 'x'] + "12345" + "";
    ValueOfOversizedHex();
    HexSyntax('x', "12345", "");
  }

  lemma ValueOfOversizedHex()
    ensures Value("12345", 16) == 74565
  {
    assert "12345"[..4] == "1234" && "1234"[..3] == "123";
    assert "123"[..2] == "12" && "12"[..1] == "1" && "1"[..0] == "";
  }
  /** `mv       $2,   $3`: runs of whitespace are ignored. */
  lemma SpacedMoveLine()
    ensures EncodeInstruction("mv       $2,   $3") == Ok(["0000000000010011"])
  {
    assert "mv       $2,   $3" == "" + "mv" + "       " + "$2" + "" + [','] + "   " + "$3" + "";
    assert Lower("mv") == "mv";
    TwoArgumentLine("", "mv", "       ", "$2", "", "   ", "$3", "");
    SpacedMoveWord();
  }

  lemma SpacedMoveWord()
    ensures Layout("mv", ["$2", "$3"]) == Ok(["0000000000010011"])
  {
    SampleLayouts(["$2", "$3"]);
    RegisterValue("$2", 2);
    RegisterValue("$3", 3);
    RegisterPairOf("000", "$2", "$3", 2, 3);
    SpacedMoveBits();
  }

  lemma SpacedMoveBits()
    ensures ZFill("000", 10) + ZFill(ToBin(2), 3) + ZFill(ToBin(3), 3) == "0000000000010011"
  {
    OpcodeFills();
    RegisterTwoBits();
    RegisterThreeBits();
    SampleConcatenations();
  }

  /** `sub $0, $10`: register 10 is out of range. */
  lemma RegisterTenLine()
    ensures EncodeInstruction("sub $0, $10") == Err(RegisterOutOfRange("$10"))
  {
    assert "sub $0, $10" == "" + "sub" + " " + "$0" + "" + [','] + " " + "$10" + "";
    assert Lower("sub") == "sub";
    TwoArgumentLine("", "sub", " ", "$0", "", " ", "$10", "");
    RegisterTenWord();
  }

  lemma RegisterTenWord()
    ensures Layout("sub", ["$0", "$10"]) == Err(RegisterOutOfRange("$10"))
  {
    SampleLayouts(["$0", "$10"]);
    RegisterValue("$0", 0);
    RegisterTen();
  }

  lemma RegisterTen()
    ensures ParseRegister("$10") == Err(RegisterOutOfRange("$10"))
  {
    RegisterBound(10);
    assert ToDigits(10, 10) == ToDigits(1, 10) + [DigitChar(0)];
  }

  /** `mvi $0, 0x000F`, `mvi $0, 15` and `mvi $0, b1111` encode alike and
      succeed: their literals are the same number. */
  lemma FifteenLines()
    ensures EncodeInstruction("mvi $0, 0x000F") == EncodeInstruction("mvi $0, 15")
    ensures EncodeInstruction("mvi $0, 15") == EncodeInstruction("mvi $0, b1111")
    ensures EncodeInstruction("mvi $0, 15").Ok?
  {
    HexFifteenLine();
    DecimalFifteenLine();
    BinaryFifteenLine();
    FifteenWords();
  }

  lemma HexFifteenLine()
    ensures EncodeInstruction("mvi $0, 0x000F") == Layout("mvi", ["$0", "0x000F"])
  {
    assert "mvi $0, 0x000F" == "" + "mvi" + " " + "$0" + "" + [','] + " " + "0x000F" + "";
    assert Lower("mvi") == "mvi";
    TwoArgumentLine("", "mvi", " ", "$0", "", " ", "0x000F", "");
  }

  lemma DecimalFifteenLine()
    ensures EncodeInstruction("mvi $0, 15") == Layout("mvi", ["$0", "15"])
  {
    assert "mvi $0, 15" == "" + "mvi" + " " + "$0" + "" + [','] + " " + "15" + "";
    assert Lower("mvi") == "mvi";
    TwoArgumentLine("", "mvi", " ", "$0", "", " ", "15", "");
  }

  lemma BinaryFifteenLine()
    ensures EncodeInstruction("mvi $0, b1111") == Layout("mvi", ["$0", "b1111"])
  {
    assert "mvi $0, b1111" == "" + "mvi" + " " + "$0" + "" + [','] + " " + "b1111" + "";
    assert Lower("mvi") == "mvi";
    TwoArgumentLine("", "mvi", " ", "$0", "", " ", "b1111", "");
  }

  lemma FifteenWords()
    ensures Layout("mvi", ["$0", "0x000F"]) == Layout("mvi", ["$0", "15"])
    ensures Layout("mvi", ["$0", "15"]) == Layout("mvi", ["$0", "b1111"])
    ensures Layout("mvi", ["$0", "15"]).Ok?
  {
    FifteenThreeWays();
    RegisterValue("$0", 0);
    SampleLayouts(["$0", "0x000F"]);
    SampleLayouts(["$0", "15"]);
    SampleLayouts(["$0", "b1111"]);
  }
}
