/** The two static tables of the assembler: the instruction table from
    mnemonic to opcode, and the encoding table from opcode to the word
    specifications that say how to build each word of the instruction. */
module Tables {
  import opened Errors
  import opened Tokens

  /** `instructions`: each mnemonic and its 3-bit opcode. */
  const INSTRUCTIONS: map<string, string> :=
    map["mv" := "000", "mvi" := "001", "add" := "010", "sub" := "011"]

  /** One field of a word specification. */
  datatype Field =
    /** A bare string in the table: its bits are copied verbatim. */
    | Const(bits: string)
    /** `("opcode", width)`: the opcode, zero-filled to `width`. */
    | OpcodeF(width: nat)
    /** `(tokenType, width)`: the next argument parsed as `kind`, written in
        binary and zero-filled to `width`. */
    | TokenF(kind: TokenKind, width: nat)

  /** The fields of one word, in order. */
  type WordSpec = seq<Field>

  /** `instructionParseMap`: for each opcode, one specification per word.
      Register-to-register instructions take one word; `mvi` takes a second
      word holding the literal. */
  const INSTRUCTION_PARSE_MAP: map<string, seq<WordSpec>> :=
    map[
      "000" := [[OpcodeF(10), TokenF(Register, 3), TokenF(Register, 3)]],
      "001" := [[OpcodeF(10), TokenF(Register, 3), Const("000")], [TokenF(NumericLiteral, 16)]],
      "010" := [[OpcodeF(10), TokenF(Register, 3), TokenF(Register, 3)]],
      "011" := [[OpcodeF(10), TokenF(Register, 3), TokenF(Register, 3)]]
    ]

  /** How many arguments a word specification consumes. */
  function TokenCount(spec: WordSpec): nat {
    if spec == [] then 0 else (if spec[0].TokenF? then 1 else 0) + TokenCount(spec[1..])
  }

  /** How many arguments a list of word specifications consumes. */
  function WordsTokenCount(specs: seq<WordSpec>): nat {
    if specs == [] then 0 else TokenCount(specs[0]) + WordsTokenCount(specs[1..])
  }

  /** The declared width of a field: the length of a constant, the width of
      an opcode or token field. */
  function FieldWidth(f: Field): nat {
    match f
    case Const(bits) => |bits|
    case OpcodeF(w) => w
    case TokenF(_, w) => w
  }

  /** The declared width of a word specification. */
  function Width(spec: WordSpec): nat {
    if spec == [] then 0 else FieldWidth(spec[0]) + Width(spec[1..])
  }

  /** Every opcode of the instruction table has an encoding entry, and the
      opcodes are distinct, so the opcode lookup never fails and no two
      mnemonics encode alike. */
  lemma TablesAgree()
    ensures forall m | m in INSTRUCTIONS :: INSTRUCTIONS[m] in INSTRUCTION_PARSE_MAP
    ensures forall m, n | m in INSTRUCTIONS && n in INSTRUCTIONS && m != n :: INSTRUCTIONS[m] != INSTRUCTIONS[n]
  {
  }

  /** `mv`, `add` and `sub` take one word and two register arguments; `mvi`
      takes two words, a register and a literal. */
  lemma WordCounts()
    ensures |INSTRUCTION_PARSE_MAP[INSTRUCTIONS["mv"]]| == 1
    ensures |INSTRUCTION_PARSE_MAP[INSTRUCTIONS["mvi"]]| == 2
    ensures |INSTRUCTION_PARSE_MAP[INSTRUCTIONS["add"]]| == 1
    ensures |INSTRUCTION_PARSE_MAP[INSTRUCTIONS["sub"]]| == 1
    ensures forall m | m in INSTRUCTIONS :: WordsTokenCount(INSTRUCTION_PARSE_MAP[INSTRUCTIONS[m]]) == 2
  {
    var rr: WordSpec := [OpcodeF(10), TokenF(Register, 3), TokenF(Register, 3)];
    assert TokenCount(rr) == 2 by {
      assert rr[1..] == [TokenF(Register, 3), TokenF(Register, 3)];
      assert rr[1..][1..] == [TokenF(Register, 3)];
    }
    var one: seq<WordSpec> := [rr];
    assert WordsTokenCount(one) == 2 by {
      assert one[1..] == [];
    }
    var ri: WordSpec := [OpcodeF(10), TokenF(Register, 3), Const("000")];
    var li: WordSpec := [TokenF(NumericLiteral, 16)];
    assert TokenCount(ri) == 1 by {
      assert ri[1..] == [TokenF(Register, 3), Const("000")];
      assert ri[1..][1..] == [Const("000")];
    }
    assert TokenCount(li) == 1 by {
      assert li[1..] == [];
    }
    var two: seq<WordSpec> := [ri, li];
    assert WordsTokenCount(two) == 2 by {
      assert two[1..] == [li];
      assert two[1..][1..] == [];
    }
  }

  /** Every word specification of the encoding table is declared
      `MEMORY_WIDTH` (16) bits wide. */
  lemma SpecsAreWordWide()
    ensures forall op, i | op in INSTRUCTION_PARSE_MAP && 0 <= i < |INSTRUCTION_PARSE_MAP[op]| ::
      Width(INSTRUCTION_PARSE_MAP[op][i]) == MEMORY_WIDTH
  {
    var rr: WordSpec := [OpcodeF(10), TokenF(Register, 3), TokenF(Register, 3)];
    assert Width(rr) == 16 by {
      assert rr[1..] == [TokenF(Register, 3), TokenF(Register, 3)];
      assert rr[1..][1..] == [TokenF(Register, 3)];
    }
    var ri: WordSpec := [OpcodeF(10), TokenF(Register, 3), Const("000")];
    assert Width(ri) == 16 by {
      assert ri[1..] == [TokenF(Register, 3), Const("000")];
      assert ri[1..][1..] == [Const("000")];
    }
    var li: WordSpec := [TokenF(NumericLiteral, 16)];
    assert Width(li) == 16 by {
      assert li[1..] == [];
    }
  }
}
