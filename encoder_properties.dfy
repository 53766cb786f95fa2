/** What `parseInstruction` promises about whole lines: how the mnemonic and
    the argument list are found, that the mnemonic's case and surplus
    arguments do not matter, that a line with too few arguments is
    rejected, the bit layout of each instruction's words, and the encodings
    of some sample lines. */
module EncoderProperties {
  import opened Errors
  import opened Text
  import opened Tokens
  import opened Tables
  import opened Encoder

  // ---------------------------------------------------------------------
  // Finding the mnemonic and the arguments
  // ---------------------------------------------------------------------

  /** A line made of whitespace, a word and then anything that does not
      continue the word has that word as its mnemonic, and its argument
      list starts just after it. */
  lemma ExtractOf(pre: string, m: string, rest: string)
    requires AllIn(pre, Space) && |m| >= 1 && AllIn(m, Word)
    requires rest == [] || !InClass(rest[0], Word)
    ensures ExtractInstruction(pre + m + rest) == Some((m, |pre| + |m|))
  {
    var line := pre + m + rest;
    assert line == pre + (m + rest);
    RunOfConcat(pre, m + rest, Space);
    assert line[|pre|..] == m + rest;
    RunOfConcat(m, rest, Word);
  }

  /** A comma splits the argument list into the arguments before it and the
      arguments after it. */
  lemma ArgumentsConcat(a: string, b: string)
    ensures Arguments(a + [','] + b) == Arguments(a) + Arguments(b)
  {
    SplitConcat(a, b, ',');
  }

  /** Without a comma, the whole rest of the line is one argument. */
  lemma ArgumentsSingle(a: string)
    requires ',' !in a
    ensures Arguments(a) == [Strip(a)]
  {
    SplitWithout(a, ',');
  }

  // ---------------------------------------------------------------------
  // Errors of the lookups
  // ---------------------------------------------------------------------

  /** A line fails for want of a mnemonic exactly when it does not start
      with a word after its leading whitespace; it fails with an unknown
      mnemonic exactly when the lower-cased word is not in the instruction
      table; and the opcode lookup never fails, since every opcode of the
      instruction table has an encoding. */
  lemma LookupErrors(line: string)
    ensures EncodeInstruction(line) == Err(NoMnemonic) <==> ExtractInstruction(line).None?
    ensures ExtractInstruction(line).Some? ==>
      var name := Lower(ExtractInstruction(line).value.0);
      (EncodeInstruction(line) == Err(UnknownMnemonic(name)) <==> name !in INSTRUCTIONS)
    ensures forall op :: EncodeInstruction(line) != Err(UnknownOpcode(op))
  {
    TablesAgree();
    var r := EncodeInstruction(line);
    match ExtractInstruction(line)
    case None =>
    case Some((m, e)) =>
      var name := Lower(m);
      if name in INSTRUCTIONS {
        var opcode := INSTRUCTIONS[name];
        var w := EncodeWords(INSTRUCTION_PARSE_MAP[opcode], opcode, Arguments(line[e..]), 0);
        assert w.Err? ==> r == Err(w.error);
        assert w.Err? ==> !w.error.NoMnemonic? && !w.error.UnknownMnemonic? && !w.error.UnknownOpcode? by {
          if w.Err? {
            EncodeWordsErrors(INSTRUCTION_PARSE_MAP[opcode], opcode, Arguments(line[e..]), 0);
          }
        }
      }
  }

  /** Encoding a word only ever fails on an argument: a missing one, or one
      that its token kind rejects. */
  lemma {:induction false} EncodeWordErrors(spec: WordSpec, opcode: string, args: seq<string>, cursor: nat)
    ensures EncodeWord(spec, opcode, args, cursor).Err? ==>
      var e := EncodeWord(spec, opcode, args, cursor).error;
      !e.NoMnemonic? && !e.UnknownMnemonic? && !e.UnknownOpcode?
  {
    if spec != [] {
      match EncodeField(spec[0], opcode, args, cursor)
      case Err(e) =>
        if spec[0].TokenF? && cursor < |args| {
          var p := TokenParse(spec[0].kind, args[cursor]);
          assert p.Err? ==> !p.error.NoMnemonic? && !p.error.UnknownMnemonic? && !p.error.UnknownOpcode? by {
            if p.Err? && p.error.CouldNotParse? {
            } else if p.Err? {
              TokenErrors(spec[0].kind, args[cursor]);
            }
          }
        }
      case Ok((bits, next)) =>
        EncodeWordErrors(spec[1..], opcode, args, next);
    }
  }

  /** The errors a token converter can report. */
  lemma TokenErrors(kind: TokenKind, s: string)
    ensures TokenParse(kind, s).Err? ==>
      var e := TokenParse(kind, s).error;
      e.CouldNotParse? || e.RegisterOutOfRange? || e.OversizedLiteral? || e.NotBinaryDigit?
  {
    match kind
    case Register =>
    case LiteralHex =>
    case LiteralDecimal =>
    case LiteralBinary =>
    case LiteralChar =>
    case NumericLiteral =>
  }

  lemma {:induction false} EncodeWordsErrors(specs: seq<WordSpec>, opcode: string, args: seq<string>, cursor: nat)
    ensures EncodeWords(specs, opcode, args, cursor).Err? ==>
      var e := EncodeWords(specs, opcode, args, cursor).error;
      !e.NoMnemonic? && !e.UnknownMnemonic? && !e.UnknownOpcode?
  {
    if specs != [] {
      EncodeWordErrors(specs[0], opcode, args, cursor);
      match EncodeWord(specs[0], opcode, args, cursor)
      case Err(e) =>
      case Ok((word, next)) =>
        EncodeWordsErrors(specs[1..], opcode, args, next);
    }
  }

  // ---------------------------------------------------------------------
  // The mnemonic's case does not matter
  // ---------------------------------------------------------------------

  /** `extractInstruction` ignores case and the mnemonic is lower-cased
      before the lookup, so a line encodes as the same line with its
      mnemonic written in lower case. */
  lemma MnemonicCaseIgnored(pre: string, m: string, rest: string)
    requires AllIn(pre, Space) && |m| >= 1 && AllIn(m, Word)
    requires rest == [] || !InClass(rest[0], Word)
    ensures EncodeInstruction(pre + m + rest) == EncodeInstruction(pre + Lower(m) + rest)
  {
    LowerWord(m);
    ExtractOf(pre, m, rest);
    ExtractOf(pre, Lower(m), rest);
    assert (pre + m + rest)[|pre| + |m|..] == rest;
    assert (pre + Lower(m) + rest)[|pre| + |m|..] == rest;
  }

  // ---------------------------------------------------------------------
  // Surplus arguments are ignored
  // ---------------------------------------------------------------------

  lemma FieldIgnoresSurplus(f: Field, opcode: string, args: seq<string>, more: seq<string>, cursor: nat)
    requires f.TokenF? ==> cursor < |args|
    ensures EncodeField(f, opcode, args + more, cursor) == EncodeField(f, opcode, args, cursor)
  {
    if f.TokenF? {
      assert (args + more)[cursor] == args[cursor];
    }
  }

  /** A word reads only the arguments its token fields consume. */
  lemma {:induction false} WordIgnoresSurplus(spec: WordSpec, opcode: string, args: seq<string>, more: seq<string>, cursor: nat)
    requires cursor + TokenCount(spec) <= |args|
    ensures EncodeWord(spec, opcode, args + more, cursor) == EncodeWord(spec, opcode, args, cursor)
  {
    if spec != [] {
      FieldIgnoresSurplus(spec[0], opcode, args, more, cursor);
      match EncodeField(spec[0], opcode, args, cursor)
      case Err(_) =>
      case Ok((bits, next)) =>
        WordIgnoresSurplus(spec[1..], opcode, args, more, next);
    }
  }

  /** The words of an instruction read only the arguments their token
      fields consume, in order from the cursor. */
  lemma {:induction false} WordsIgnoreSurplus(specs: seq<WordSpec>, opcode: string, args: seq<string>, more: seq<string>, cursor: nat)
    requires cursor + WordsTokenCount(specs) <= |args|
    ensures EncodeWords(specs, opcode, args + more, cursor) == EncodeWords(specs, opcode, args, cursor)
  {
    if specs != [] {
      WordIgnoresSurplus(specs[0], opcode, args, more, cursor);
      match EncodeWord(specs[0], opcode, args, cursor)
      case Err(_) =>
      case Ok((word, next)) =>
        WordsIgnoreSurplus(specs[1..], opcode, args, more, next);
    }
  }

  /** Text after the mnemonic that does not continue it leaves the mnemonic
      and the start of the argument list where they were. */
  lemma ExtractIgnoresTail(line: string, tail: string)
    requires ExtractInstruction(line).Some?
    requires tail == [] || !InClass(tail[0], Word)
    ensures ExtractInstruction(line + tail) == ExtractInstruction(line)
  {
    var (m, e) := ExtractInstruction(line).value;
    var pre := line[..e - |m|];
    var rest := line[e..];
    ExtractParts(line);
    assert line + tail == pre + m + (rest + tail);
    assert rest + tail == [] || !InClass((rest + tail)[0], Word) by {
      if rest != [] {
        assert (rest + tail)[0] == line[e];
      }
    }
    ExtractOf(pre, m, rest + tail);
  }

  /** A line with a mnemonic is its leading whitespace, the mnemonic and the
      rest of the line. */
  lemma ExtractParts(line: string)
    requires ExtractInstruction(line).Some?
    ensures var (m, e) := ExtractInstruction(line).value;
      line == line[..e - |m|] + m + line[e..]
  {
    var (m, e) := ExtractInstruction(line).value;
    assert line == line[..e - |m|] + line[e - |m|..e] + line[e..];
  }

  /** Extra arguments after a comma do not change the words of any
      instruction whose own arguments encode. */
  lemma OpcodeIgnoresSurplus(opcode: string, rest: string, extra: string)
    requires opcode in INSTRUCTION_PARSE_MAP
    requires EncodeWords(INSTRUCTION_PARSE_MAP[opcode], opcode, Arguments(rest), 0).Ok?
    ensures EncodeWords(INSTRUCTION_PARSE_MAP[opcode], opcode, Arguments(rest + [','] + extra), 0)
      == EncodeWords(INSTRUCTION_PARSE_MAP[opcode], opcode, Arguments(rest), 0)
  {
    WordCounts();
    ArgumentsConcat(rest, extra);
    WordsIgnoreSurplus(INSTRUCTION_PARSE_MAP[opcode], opcode, Arguments(rest), Arguments(extra), 0);
  }

  /** The argument list is never checked for surplus entries: appending a
      comma and anything at all to a line that encodes leaves its encoding
      unchanged. */
  lemma SurplusArgumentsIgnored(line: string, extra: string)
    requires EncodeInstruction(line).Ok?
    ensures EncodeInstruction(line + [','] + extra) == EncodeInstruction(line)
  {
    var (m, e) := ExtractInstruction(line).value;
    var longer := line + [','] + extra;
    assert ExtractInstruction(longer) == Some((m, e)) by {
      assert longer == line + ([','] + extra);
      ExtractIgnoresTail(line, [','] + extra);
    }
    SameMnemonicSameEncoding(line, longer, m, e, extra);
  }

  lemma SameMnemonicSameEncoding(line: string, longer: string, m: string, e: nat, extra: string)
    requires ExtractInstruction(line) == Some((m, e))
    requires ExtractInstruction(longer) == Some((m, e))
    requires longer == line + [','] + extra
    requires EncodeInstruction(line).Ok?
    ensures EncodeInstruction(longer) == EncodeInstruction(line)
  {
    KnownMnemonic(line);
    EncodeInstructionOf(line, m, e);
    EncodeInstructionOf(longer, m, e);
    RestOfLonger(line, e, extra);
    OpcodeIgnoresSurplus(INSTRUCTIONS[Lower(m)], line[e..], extra);
  }

  lemma RestOfLonger(line: string, e: nat, extra: string)
    requires e <= |line|
    ensures (line + [','] + extra)[e..] == line[e..] + [','] + extra
  {
  }

  // ---------------------------------------------------------------------
  // Too few arguments
  // ---------------------------------------------------------------------

  /** Every instruction takes two arguments, so a known mnemonic with no
      comma after it is rejected: either its one argument does not parse or
      the second argument, at index 1, is missing. */
  lemma TooFewArguments(line: string)
    requires ExtractInstruction(line).Some?
    requires Lower(ExtractInstruction(line).value.0) in INSTRUCTIONS
    requires ',' !in line[ExtractInstruction(line).value.1..]
    ensures EncodeInstruction(line).Err?
    ensures EncodeInstruction(line).error.MissingArgument? ==> EncodeInstruction(line).error.index == 1
  {
    var (m, e) := ExtractInstruction(line).value;
    ArgumentsSingle(line[e..]);
    WordCounts();
    EncodeInstructionOf(line, m, e);
  }

  // ---------------------------------------------------------------------
  // The layout of the words
  // ---------------------------------------------------------------------

  /** The opcodes of the register-to-register instructions `mv`, `add` and
      `sub`. */
  predicate IsRegisterPair(opcode: string) {
    opcode == "000" || opcode == "010" || opcode == "011"
  }

  /** The word of a register-to-register instruction: the opcode in 10 bits,
      then the first argument's register in 3 bits and the second
      argument's register in 3 bits.  The first failing argument decides the
      error. */
  function RegisterPairEncoding(opcode: string, args: seq<string>): Result<seq<string>> {
    if |args| == 0 then Err(MissingArgument(0))
    else
      match ParseRegister(args[0])
      case Err(e) => Err(e)
      case Ok(x) =>
        if |args| == 1 then Err(MissingArgument(1))
        else
          match ParseRegister(args[1])
          case Err(e) => Err(e)
          case Ok(y) => Ok([ZFill(opcode, 10) + ZFill(ToBin(x), 3) + ZFill(ToBin(y), 3)])
  }

  /** The two words of `mvi`: the opcode in 10 bits, the first argument's
      register in 3 bits and three zero bits; then the second argument's
      numeric literal in 16 bits. */
  function ImmediateEncoding(opcode: string, args: seq<string>): Result<seq<string>> {
    if |args| == 0 then Err(MissingArgument(0))
    else
      match ParseRegister(args[0])
      case Err(e) => Err(e)
      case Ok(x) =>
        if |args| == 1 then Err(MissingArgument(1))
        else
          match ParseNumericLiteral(args[1])
          case Err(e) => Err(e)
          case Ok(v) => Ok([ZFill(opcode, 10) + ZFill(ToBin(x), 3) + "000", ZFill(ToBin(v), 16)])
  }

  /** The words of the instruction named `name` over `args`, by the layout
      of that instruction. */
  function Layout(name: string, args: seq<string>): Result<seq<string>>
    requires name in INSTRUCTIONS
  {
    if name == "mvi" then ImmediateEncoding("001", args)
    else RegisterPairEncoding(INSTRUCTIONS[name], args)
  }

  /** The last register field of a word, read at cursor `c`. */
  lemma LastRegisterField(opcode: string, args: seq<string>, c: nat)
    ensures EncodeWord([TokenF(Register, 3)], opcode, args, c) ==
      if c >= |args| then Err(MissingArgument(c))
      else
        match ParseRegister(args[c])
        case Err(e) => Err(e)
        case Ok(y) => Ok((ZFill(ToBin(y), 3), c + 1))
  {
    SingleTokenField(Register, 3, opcode, args, c);
  }

  /** A word made of one token field, read at cursor `c`. */
  lemma SingleTokenField(kind: TokenKind, width: nat, opcode: string, args: seq<string>, c: nat)
    ensures EncodeWord([TokenF(kind, width)], opcode, args, c) ==
      if c >= |args| then Err(MissingArgument(c))
      else
        match TokenParse(kind, args[c])
        case Err(e) => Err(e)
        case Ok(v) => Ok((ZFill(ToBin(v), width), c + 1))
  {
    OneFieldWord(TokenF(kind, width), opcode, args, c);
  }

  /** A word made of one field is that field's bits. */
  lemma OneFieldWord(f: Field, opcode: string, args: seq<string>, c: nat)
    ensures EncodeWord([f], opcode, args, c) ==
      match EncodeField(f, opcode, args, c)
      case Err(e) => Err(e)
      case Ok((bits, next)) => Ok((bits, next))
  {
    var spec: WordSpec := [f];
    assert spec[1..] == [];
    match EncodeField(f, opcode, args, c)
    case Err(_) =>
    case Ok((bits, next)) =>
      assert bits + "" == bits;
  }

  /** The two register fields of a register-to-register word. */
  lemma RegisterFields(opcode: string, args: seq<string>)
    ensures EncodeWord([TokenF(Register, 3), TokenF(Register, 3)], opcode, args, 0) ==
      if |args| == 0 then Err(MissingArgument(0))
      else
        match ParseRegister(args[0])
        case Err(e) => Err(e)
        case Ok(x) =>
          if |args| == 1 then Err(MissingArgument(1))
          else
            match ParseRegister(args[1])
            case Err(e) => Err(e)
            case Ok(y) => Ok((ZFill(ToBin(x), 3) + ZFill(ToBin(y), 3), 2))
  {
    var f: WordSpec := [TokenF(Register, 3), TokenF(Register, 3)];
    assert f[1..] == [TokenF(Register, 3)];
    LastRegisterField(opcode, args, 1);
  }

  lemma Associative(a: string, b: string, c: string)
    ensures a + (b + c) == a + b + c
  {
  }

  /** A one-word instruction yields the word its specification builds. */
  lemma SingleWord(spec: WordSpec, opcode: string, args: seq<string>)
    ensures DropCursor(EncodeWords([spec], opcode, args, 0)) ==
      match EncodeWord(spec, opcode, args, 0)
      case Err(e) => Err(e)
      case Ok((w, _)) => Ok([w])
  {
    var one: seq<WordSpec> := [spec];
    assert one[1..] == [];
    match EncodeWord(spec, opcode, args, 0)
    case Err(_) =>
    case Ok((w, n)) =>
      assert EncodeWords(one, opcode, args, 0) == PrependWords([w], EncodeWords([], opcode, args, n));
      assert [w] + [] == [w];
  }

  /** A word that starts with the opcode field: the zero-filled opcode, then
      the rest of the word. */
  lemma OpcodeFirst(rest: WordSpec, opcode: string, args: seq<string>)
    ensures EncodeWord([OpcodeF(10)] + rest, opcode, args, 0) == PrependBits(ZFill(opcode, 10), EncodeWord(rest, opcode, args, 0))
  {
    var spec := [OpcodeF(10)] + rest;
    assert spec[0] == OpcodeF(10) && spec[1..] == rest;
  }

  /** The register-to-register word specification builds words by that
      layout, for any opcode. */
  lemma RegisterPairWord(opcode: string, args: seq<string>)
    ensures DropCursor(EncodeWords([[OpcodeF(10), TokenF(Register, 3), TokenF(Register, 3)]], opcode, args, 0))
      == RegisterPairEncoding(opcode, args)
  {
    var regs: WordSpec := [TokenF(Register, 3), TokenF(Register, 3)];
    var rr: WordSpec := [OpcodeF(10)] + regs;
    assert rr == [OpcodeF(10), TokenF(Register, 3), TokenF(Register, 3)];
    RegisterFields(opcode, args);
    OpcodeFirst(regs, opcode, args);
    SingleWord(rr, opcode, args);
    if |args| >= 2 && ParseRegister(args[0]).Ok? && ParseRegister(args[1]).Ok? {
      var x := ParseRegister(args[0]).value;
      var y := ParseRegister(args[1]).value;
      var w := ZFill(opcode, 10) + ZFill(ToBin(x), 3) + ZFill(ToBin(y), 3);
      Associative(ZFill(opcode, 10), ZFill(ToBin(x), 3), ZFill(ToBin(y), 3));
      assert EncodeWord(rr, opcode, args, 0) == Ok((w, 2));
      assert RegisterPairEncoding(opcode, args) == Ok([w]);
    } else {
      assert EncodeWord(rr, opcode, args, 0).Err?;
      assert RegisterPairEncoding(opcode, args) == Err(EncodeWord(rr, opcode, args, 0).error);
    }
  }

  /** The encoding table builds the words of `mv`, `add` and `sub` by the
      register-to-register layout. */
  lemma RegisterPairLayout(opcode: string, args: seq<string>)
    requires IsRegisterPair(opcode)
    ensures DropCursor(EncodeWords(INSTRUCTION_PARSE_MAP[opcode], opcode, args, 0)) == RegisterPairEncoding(opcode, args)
  {
    assert INSTRUCTION_PARSE_MAP[opcode] == [[OpcodeF(10), TokenF(Register, 3), TokenF(Register, 3)]];
    RegisterPairWord(opcode, args);
  }

  /** The register field and the constant of the first word of `mvi`. */
  lemma ImmediateFirstFields(args: seq<string>)
    ensures EncodeWord([TokenF(Register, 3), Const("000")], "001", args, 0) ==
      if |args| == 0 then Err(MissingArgument(0))
      else
        match ParseRegister(args[0])
        case Err(e) => Err(e)
        case Ok(x) => Ok((ZFill(ToBin(x), 3) + "000", 1))
  {
    var f: WordSpec := [TokenF(Register, 3), Const("000")];
    var g: WordSpec := [Const("000")];
    assert f[1..] == g;
    if |args| == 0 {
      assert EncodeField(f[0], "001", args, 0) == Err(MissingArgument(0));
    } else {
      match ParseRegister(args[0])
      case Err(e) =>
        assert EncodeField(f[0], "001", args, 0) == Err(e);
      case Ok(x) =>
        assert EncodeField(f[0], "001", args, 0) == Ok((ZFill(ToBin(x), 3), 1));
        assert EncodeWord(g, "001", args, 1) == Ok(("000", 1)) by {
          assert g[1..] == [];
          assert "000" + "" == "000";
        }
    }
  }

  /** The literal word of `mvi`, read at cursor 1. */
  lemma ImmediateLiteralWord(args: seq<string>)
    ensures EncodeWord([TokenF(NumericLiteral, 16)], "001", args, 1) ==
      if |args| <= 1 then Err(MissingArgument(1))
      else
        match ParseNumericLiteral(args[1])
        case Err(e) => Err(e)
        case Ok(v) => Ok((ZFill(ToBin(v), 16), 2))
  {
    SingleTokenField(NumericLiteral, 16, "001", args, 1);
  }

  /** The encoding table builds the words of `mvi` by its layout. */
  lemma ImmediateLayout(args: seq<string>)
    ensures DropCursor(EncodeWords(INSTRUCTION_PARSE_MAP["001"], "001", args, 0)) == ImmediateEncoding("001", args)
  {
    ImmediateSpecs();
    ImmediateFirstWord(args);
    ImmediateLiteralWord(args);
    TwoWords([OpcodeF(10), TokenF(Register, 3), Const("000")], [TokenF(NumericLiteral, 16)], "001", args);
  }

  /** The encoding table entry of `mvi`. */
  lemma ImmediateSpecs()
    ensures INSTRUCTION_PARSE_MAP["001"] == [[OpcodeF(10), TokenF(Register, 3), Const("000")], [TokenF(NumericLiteral, 16)]]
  {
  }

  /** The first word of `mvi`: the zero-filled opcode, the register field
      and the constant. */
  lemma ImmediateFirstWord(args: seq<string>)
    ensures EncodeWord([OpcodeF(10), TokenF(Register, 3), Const("000")], "001", args, 0) ==
      if |args| == 0 then Err(MissingArgument(0))
      else
        match ParseRegister(args[0])
        case Err(e) => Err(e)
        case Ok(x) => Ok((ZFill("001", 10) + ZFill(ToBin(x), 3) + "000", 1))
  {
    var fields: WordSpec := [TokenF(Register, 3), Const("000")];
    assert [OpcodeF(10)] + fields == [OpcodeF(10), TokenF(Register, 3), Const("000")];
    ImmediateFirstFields(args);
    OpcodeFirst(fields, "001", args);
    if |args| > 0 && ParseRegister(args[0]).Ok? {
      Associative(ZFill("001", 10), ZFill(ToBin(ParseRegister(args[0]).value), 3), "000");
    }
  }

  /** A two-word instruction yields its two words, the second built from the
      cursor the first one leaves. */
  lemma TwoWords(first: WordSpec, second: WordSpec, opcode: string, args: seq<string>)
    ensures DropCursor(EncodeWords([first, second], opcode, args, 0)) ==
      var r1 := EncodeWord(first, opcode, args, 0);
      if r1.Err? then Err(r1.error)
      else
        var r2 := EncodeWord(second, opcode, args, r1.value.1);
        if r2.Err? then Err(r2.error) else Ok([r1.value.0, r2.value.0])
  {
    var two: seq<WordSpec> := [first, second];
    var last: seq<WordSpec> := [second];
    assert two[1..] == last;
    assert last[1..] == [];
    match EncodeWord(first, opcode, args, 0)
    case Err(_) =>
    case Ok((w, n)) =>
      match EncodeWord(second, opcode, args, n)
      case Err(_) =>
      case Ok((l, k)) =>
        assert EncodeWords(last, opcode, args, n) == PrependWords([l], EncodeWords([], opcode, args, k));
        assert [w] + ([l] + []) == [w, l];
  }

  /** A line with a known mnemonic encodes by the layout of its
      instruction: `mvi` by the immediate layout, the others by the
      register-to-register layout, each over the line's argument list. */
  lemma InstructionLayout(line: string)
    requires ExtractInstruction(line).Some?
    requires Lower(ExtractInstruction(line).value.0) in INSTRUCTIONS
    ensures var (m, e) := ExtractInstruction(line).value;
      EncodeInstruction(line) == Layout(Lower(m), Arguments(line[e..]))
  {
    var (m, e) := ExtractInstruction(line).value;
    EncodeInstructionOf(line, m, e);
    OpcodeLayout(Lower(m), Arguments(line[e..]));
  }

  /** A line that encodes yields one word for `mv`, `add` and `sub` and two
      for `mvi`: one word per word specification of its opcode. */
  lemma WordCount(line: string)
    requires EncodeInstruction(line).Ok?
    ensures ExtractInstruction(line).Some?
    ensures |EncodeInstruction(line).value| == if Lower(ExtractInstruction(line).value.0) == "mvi" then 2 else 1
  {
    KnownMnemonic(line);
    var (m, e) := ExtractInstruction(line).value;
    EncodeInstructionOf(line, m, e);
    OpcodeWordCount(Lower(m), Arguments(line[e..]));
  }

  lemma OpcodeWordCount(name: string, args: seq<string>)
    requires name in INSTRUCTIONS
    requires DropCursor(EncodeWords(INSTRUCTION_PARSE_MAP[INSTRUCTIONS[name]], INSTRUCTIONS[name], args, 0)).Ok?
    ensures |DropCursor(EncodeWords(INSTRUCTION_PARSE_MAP[INSTRUCTIONS[name]], INSTRUCTIONS[name], args, 0)).value|
      == if name == "mvi" then 2 else 1
  {
    WordCounts();
  }

  /** The encoding table builds each instruction's words by its layout. */
  lemma OpcodeLayout(name: string, args: seq<string>)
    requires name in INSTRUCTIONS
    ensures DropCursor(EncodeWords(INSTRUCTION_PARSE_MAP[INSTRUCTIONS[name]], INSTRUCTIONS[name], args, 0)) == Layout(name, args)
  {
    if name == "mvi" {
      ImmediateLayout(args);
    } else {
      RegisterPairLayout(INSTRUCTIONS[name], args);
    }
  }

  // ---------------------------------------------------------------------
  // Reading the fields back
  // ---------------------------------------------------------------------

  lemma Pow2Three()
    ensures Pow2(3) == 8
  {
    assert Pow2(1) == 2;
    assert Pow2(2) == 4;
  }

  /** A register index below `NUM_REGISTERS` fills its 3-bit field exactly,
      and the field reads back as the index. */
  lemma RegisterBits(x: nat)
    requires x < NUM_REGISTERS
    ensures var f := ZFill(ToBin(x), 3); |f| == 3 && AllIn(f, BinDigit) && Value(f, 2) == x
  {
    RegisterWidth(x);
    ZFillValue(ToBin(x), 3, 2);
  }

  lemma RegisterWidth(x: nat)
    requires x < NUM_REGISTERS
    ensures |ZFill(ToBin(x), 3)| == 3
  {
    Pow2Three();
    BinLength(x, 3);
  }

  /** A numeric literal fills its 16-bit word exactly, and the word reads
      back as the literal. */
  lemma LiteralBits(v: nat)
    requires v <= MAX_LITERAL_VALUE
    ensures var l := ZFill(ToBin(v), 16); |l| == MEMORY_WIDTH && AllIn(l, BinDigit) && Value(l, 2) == v
  {
    LiteralWide(v);
    ZFillValue(ToBin(v), 16, 2);
  }

  lemma LiteralWide(v: nat)
    requires v <= MAX_LITERAL_VALUE
    ensures var l := ZFill(ToBin(v), 16); |l| == MEMORY_WIDTH && AllIn(l, BinDigit)
  {
    MaxLiteralIsWordMax();
    BinLength(v, 16);
    FieldBinary(v, 16);
  }

  /** A 3-bit opcode takes the last 3 bits of its 10-bit field, after seven
      zeros. */
  lemma OpcodeBits(opcode: string)
    requires |opcode| == 3 && AllIn(opcode, BinDigit)
    ensures var f := ZFill(opcode, 10); f == Zeros(7) + opcode && AllIn(f, BinDigit)
  {
    ZFillValue(opcode, 10, 2);
  }

  /** A 10-bit, a 3-bit and a 3-bit field make a word of `MEMORY_WIDTH`
      characters, from which each field can be sliced back. */
  lemma FieldsOfWord(f: string, fx: string, fy: string)
    requires |f| == 10 && |fx| == 3 && |fy| == 3
    ensures var w := f + fx + fy;
      |w| == MEMORY_WIDTH && w[..10] == f && w[10..13] == fx && w[13..] == fy
  {
    var w := f + fx + fy;
    assert w[..10] == f;
    assert w[10..13] == fx;
    assert w[13..] == fy;
  }

  /** Binary fields make a binary word. */
  lemma BinaryWord(f: string, fx: string, fy: string)
    requires AllIn(f, BinDigit) && AllIn(fx, BinDigit) && AllIn(fy, BinDigit)
    ensures AllIn(f + fx + fy, BinDigit)
  {
    var w := f + fx + fy;
    forall i | 0 <= i < |w| ensures InClass(w[i], BinDigit) {
      if i < |f| {
        assert w[i] == f[i];
      } else if i < |f| + |fx| {
        assert w[i] == fx[i - |f|];
      } else {
        assert w[i] == fy[i - |f| - |fx|];
      }
    }
  }

  /** The opcodes of the register-to-register instructions are three binary
      digits. */
  lemma RegisterPairOpcode(opcode: string)
    requires IsRegisterPair(opcode)
    ensures |opcode| == 3 && AllIn(opcode, BinDigit)
  {
  }

  /** A number written in binary and zero-filled is binary digits. */
  lemma FieldBinary(n: nat, w: nat)
    ensures AllIn(ZFill(ToBin(n), w), BinDigit)
  {
    ZFillValue(ToBin(n), w, 2);
  }

  /** A register-to-register word over registers below `NUM_REGISTERS` is
      `MEMORY_WIDTH` digits: seven zeros and the opcode, then fields that
      read back as register x and register y. */
  lemma RegisterPairFields(opcode: string, x: nat, y: nat)
    requires IsRegisterPair(opcode)
    requires x < NUM_REGISTERS && y < NUM_REGISTERS
    ensures var w := ZFill(opcode, 10) + ZFill(ToBin(x), 3) + ZFill(ToBin(y), 3);
      |w| == MEMORY_WIDTH && w[..10] == Zeros(7) + opcode
      && Value(w[10..13], 2) == x && Value(w[13..], 2) == y
  {
    RegisterPairOpcode(opcode);
    OpcodeBits(opcode);
    RegisterBits(x);
    RegisterBits(y);
    FieldsOfWord(ZFill(opcode, 10), ZFill(ToBin(x), 3), ZFill(ToBin(y), 3));
  }

  /** A register-to-register word is made of binary digits, whatever the
      registers. */
  lemma RegisterPairBinary(opcode: string, x: nat, y: nat)
    requires IsRegisterPair(opcode)
    ensures AllIn(ZFill(opcode, 10) + ZFill(ToBin(x), 3) + ZFill(ToBin(y), 3), BinDigit)
  {
    RegisterPairOpcode(opcode);
    OpcodeBits(opcode);
    FieldBinary(x, 3);
    FieldBinary(y, 3);
    BinaryWord(ZFill(opcode, 10), ZFill(ToBin(x), 3), ZFill(ToBin(y), 3));
  }

  /** The first word of `mvi` over a register below `NUM_REGISTERS` is
      `MEMORY_WIDTH` digits: seven zeros and the opcode, a field that reads
      back as the register, and three zeros. */
  lemma ImmediateFields(x: nat)
    requires x < NUM_REGISTERS
    ensures var w := ZFill("001", 10) + ZFill(ToBin(x), 3) + "000";
      |w| == MEMORY_WIDTH && w[..10] == Zeros(7) + "001"
      && Value(w[10..13], 2) == x && w[13..] == "000"
  {
    OpcodeBits("001");
    RegisterBits(x);
    FieldsOfWord(ZFill("001", 10), ZFill(ToBin(x), 3), "000");
  }

  /** The first word of `mvi` is made of binary digits, whatever the
      register. */
  lemma ImmediateBinary(x: nat)
    ensures AllIn(ZFill("001", 10) + ZFill(ToBin(x), 3) + "000", BinDigit)
  {
    OpcodeBits("001");
    FieldBinary(x, 3);
    assert AllIn("000", BinDigit);
    BinaryWord(ZFill("001", 10), ZFill(ToBin(x), 3), "000");
  }

  /** Register 8 passes the register check but needs four bits, so its
      field widens the word beyond `MEMORY_WIDTH`. */
  lemma RegisterEightWidens(opcode: string, y: nat)
    requires IsRegisterPair(opcode) && y < NUM_REGISTERS
    ensures ParseRegister("$8") == Ok(NUM_REGISTERS)
    ensures |ZFill(opcode, 10) + ZFill(ToBin(NUM_REGISTERS), 3) + ZFill(ToBin(y), 3)| == MEMORY_WIDTH + 1
  {
    RegisterBound(8);
    assert ToDigits(8, 10) == "8";
    Pow2Three();
    BinLength(8, 3);
    BinLength(8, 4);
    assert Pow2(4) == 16;
    RegisterBits(y);
  }

  /** How many leading arguments an instruction reads as registers: one for
      `mvi`, whose second argument is a literal, two for the others. */
  function RegisterArgumentCount(name: string): nat {
    if name == "mvi" then 1 else 2
  }

  /** None of the first `registers` arguments, the register positions, names
      register 8. */
  predicate NoRegisterEight(args: seq<string>, registers: nat) {
    forall i | 0 <= i < registers && i < |args| :: ParseRegister(args[i]) != Ok(NUM_REGISTERS)
  }

  /** The word of a register-to-register instruction whose two register
      arguments do not name register 8 is `MEMORY_WIDTH` binary digits. */
  lemma RegisterPairWordWide(opcode: string, args: seq<string>)
    requires IsRegisterPair(opcode)
    requires RegisterPairEncoding(opcode, args).Ok? && NoRegisterEight(args, 2)
    ensures forall w | w in RegisterPairEncoding(opcode, args).value :: |w| == MEMORY_WIDTH && AllIn(w, BinDigit)
  {
    var x, y := RegisterPairArguments(opcode, args);
    RegisterPairOpcode(opcode);
    RegisterWidth(x);
    RegisterWidth(y);
    RegisterPairBinary(opcode, x, y);
  }

  /** The registers a successful register-to-register encoding was built
      from, each below `NUM_REGISTERS` when neither names register 8. */
  lemma RegisterPairArguments(opcode: string, args: seq<string>) returns (x: nat, y: nat)
    requires RegisterPairEncoding(opcode, args).Ok? && NoRegisterEight(args, 2)
    ensures x < NUM_REGISTERS && y < NUM_REGISTERS
    ensures RegisterPairEncoding(opcode, args).value == [ZFill(opcode, 10) + ZFill(ToBin(x), 3) + ZFill(ToBin(y), 3)]
  {
    x, y := RegisterPairShape(opcode, args);
    assert ParseRegister(args[0]) != Ok(NUM_REGISTERS) && ParseRegister(args[1]) != Ok(NUM_REGISTERS);
    RegisterBelowEight(args[0]);
    RegisterBelowEight(args[1]);
  }

  /** A successful register-to-register encoding is the word built from its
      two parsed registers. */
  lemma RegisterPairShape(opcode: string, args: seq<string>) returns (x: nat, y: nat)
    requires RegisterPairEncoding(opcode, args).Ok?
    ensures |args| >= 2 && ParseRegister(args[0]) == Ok(x) && ParseRegister(args[1]) == Ok(y)
    ensures RegisterPairEncoding(opcode, args).value == [ZFill(opcode, 10) + ZFill(ToBin(x), 3) + ZFill(ToBin(y), 3)]
  {
    x := ParseRegister(args[0]).value;
    y := ParseRegister(args[1]).value;
  }

  /** A register the register bound accepts that is not register 8 is below
      `NUM_REGISTERS`. */
  lemma RegisterBelowEight(s: string)
    requires ParseRegister(s).Ok? && ParseRegister(s) != Ok(NUM_REGISTERS)
    ensures ParseRegister(s).value < NUM_REGISTERS
  {
  }

  /** The words of `mvi` whose register argument is not register 8 are
      `MEMORY_WIDTH` binary digits each. */
  lemma ImmediateWordWide(args: seq<string>)
    requires ImmediateEncoding("001", args).Ok? && NoRegisterEight(args, 1)
    ensures forall w | w in ImmediateEncoding("001", args).value :: |w| == MEMORY_WIDTH && AllIn(w, BinDigit)
  {
    var x, v := ImmediateArguments(args);
    RegisterWidth(x);
    ImmediateBinary(x);
    LiteralWide(v);
  }

  /** The register and the literal a successful `mvi` encoding was built
      from, the register below `NUM_REGISTERS` when it is not register 8. */
  lemma ImmediateArguments(args: seq<string>) returns (x: nat, v: nat)
    requires ImmediateEncoding("001", args).Ok? && NoRegisterEight(args, 1)
    ensures x < NUM_REGISTERS && v <= MAX_LITERAL_VALUE
    ensures ImmediateEncoding("001", args).value == [ZFill("001", 10) + ZFill(ToBin(x), 3) + "000", ZFill(ToBin(v), 16)]
  {
    x, v := ImmediateShape(args);
    assert ParseRegister(args[0]) != Ok(NUM_REGISTERS);
    RegisterBelowEight(args[0]);
  }

  /** A successful `mvi` encoding is the two words built from its parsed
      register and literal. */
  lemma ImmediateShape(args: seq<string>) returns (x: nat, v: nat)
    requires ImmediateEncoding("001", args).Ok?
    ensures |args| >= 2 && ParseRegister(args[0]) == Ok(x) && ParseNumericLiteral(args[1]) == Ok(v)
    ensures v <= MAX_LITERAL_VALUE
    ensures ImmediateEncoding("001", args).value == [ZFill("001", 10) + ZFill(ToBin(x), 3) + "000", ZFill(ToBin(v), 16)]
  {
    x := ParseRegister(args[0]).value;
    v := ParseNumericLiteral(args[1]).value;
  }

  /** While no register argument names register 8, every word a line encodes to is
      exactly `MEMORY_WIDTH` binary digits. */
  lemma WordsAreWordWide(line: string)
    requires EncodeInstruction(line).Ok?
    requires NoRegisterEight(Arguments(line[ExtractInstruction(line).value.1..]),
                             RegisterArgumentCount(Lower(ExtractInstruction(line).value.0)))
    ensures forall w | w in EncodeInstruction(line).value :: |w| == MEMORY_WIDTH && AllIn(w, BinDigit)
  {
    var (m, e) := ExtractInstruction(line).value;
    KnownMnemonic(line);
    InstructionLayout(line);
    LayoutWordWide(Lower(m), Arguments(line[e..]));
  }

  /** The words of either layout are `MEMORY_WIDTH` binary digits while no
      register argument names register 8. */
  lemma LayoutWordWide(name: string, args: seq<string>)
    requires name in INSTRUCTIONS
    requires Layout(name, args).Ok? && NoRegisterEight(args, RegisterArgumentCount(name))
    ensures forall w | w in Layout(name, args).value :: |w| == MEMORY_WIDTH && AllIn(w, BinDigit)
  {
    if name == "mvi" {
      ImmediateWordWide(args);
    } else {
      RegisterPairName(name, args);
      RegisterPairWordWide(INSTRUCTIONS[name], args);
    }
  }

  /** Every mnemonic other than `mvi` names a register-to-register opcode. */
  lemma RegisterPairName(name: string, args: seq<string>)
    requires name in INSTRUCTIONS && name != "mvi"
    ensures IsRegisterPair(INSTRUCTIONS[name])
    ensures Layout(name, args) == RegisterPairEncoding(INSTRUCTIONS[name], args)
    ensures RegisterArgumentCount(name) == 2
  {
  }

  /** A line that encodes has a mnemonic, and its mnemonic is known. */
  lemma KnownMnemonic(line: string)
    requires EncodeInstruction(line).Ok?
    ensures ExtractInstruction(line).Some? && Lower(ExtractInstruction(line).value.0) in INSTRUCTIONS
  {
  }
}
