/** `parseInstruction`: encode one source line as a list of bit-string words.
    The functions below define the encoding field by field and word by word;
    the method `ParseInstruction` is the source's loop, proved to compute
    exactly that encoding. */
module Encoder {
  import opened Errors
  import opened Text
  import opened Tokens
  import opened Tables

  /** `extractInstruction`, the pattern `^\s*(\w+)`: the mnemonic, and the
      position just past it where the argument list starts. */
  function ExtractInstruction(line: string): (r: Option<(string, nat)>)
    ensures r.Some? ==>
      var (m, e) := r.value;
      |m| >= 1 && |m| <= e <= |line| && line[e - |m|..e] == m && AllIn(m, Word)
      && AllIn(line[..e - |m|], Space) && (e == |line| || !InClass(line[e], Word))
    ensures r.None? <==>
      var i := |Run(line, Space)|; i == |line| || !InClass(line[i], Word)
  {
    var i := |Run(line, Space)|;
    var m := Run(line[i..], Word);
    if |m| == 0 then None
    else
      assert line[i..][..|m|] == line[i..i + |m|];
      assert line[i..][|m|..] == line[i + |m|..];
      Some((m, i + |m|))
  }

  /** `map(lambda s: s.strip(), line[start:].split(','))`: the comma-separated
      pieces of the rest of the line, each stripped of surrounding
      whitespace.  There is always at least one piece. */
  function Arguments(rest: string): (args: seq<string>)
    ensures |args| == |Split(rest, ',')| >= 1
    ensures forall i | 0 <= i < |args| :: args[i] == Strip(Split(rest, ',')[i])
  {
    var pieces := Split(rest, ',');
    seq(|pieces|, i requires 0 <= i < |pieces| => Strip(pieces[i]))
  }

  /** The bits of one field and the argument cursor after it.  A constant is
      copied and an opcode is zero-filled; neither moves the cursor.  A token
      field reads the argument at the cursor, fails when there is none or when
      it does not parse, and otherwise writes the value in binary, zero-filled
      and never truncated, and moves the cursor on by one. */
  function EncodeField(f: Field, opcode: string, args: seq<string>, cursor: nat): (r: Result<(string, nat)>)
    ensures f.Const? ==> r == Ok((f.bits, cursor))
    ensures f.OpcodeF? ==> r == Ok((ZFill(opcode, f.width), cursor))
    ensures f.TokenF? && cursor >= |args| ==> r == Err(MissingArgument(cursor))
    ensures f.TokenF? && cursor < |args| && TokenParse(f.kind, args[cursor]).Err? ==>
      r == Err(TokenParse(f.kind, args[cursor]).error)
    ensures f.TokenF? && cursor < |args| && TokenParse(f.kind, args[cursor]).Ok? ==>
      r.Ok? && r.value.1 == cursor + 1 && |r.value.0| >= f.width
  {
    match f
    case Const(bits) => Ok((bits, cursor))
    case OpcodeF(w) => Ok((ZFill(opcode, w), cursor))
    case TokenF(kind, w) =>
      if cursor >= |args| then Err(MissingArgument(cursor))
      else
        match TokenParse(kind, args[cursor])
        case Err(e) => Err(e)
        case Ok(v) => Ok((ZFill(ToBin(v), w), cursor + 1))
  }

  /** The bits of a token field are binary digits that read back as the
      parsed value, as wide as the field or wider when the value needs more
      digits. */
  lemma TokenFieldReadsBack(f: Field, opcode: string, args: seq<string>, cursor: nat)
    requires f.TokenF? && cursor < |args| && TokenParse(f.kind, args[cursor]).Ok?
    ensures var v := TokenParse(f.kind, args[cursor]).value;
      var r := EncodeField(f, opcode, args, cursor);
      r.Ok? && AllIn(r.value.0, BinDigit) && Value(r.value.0, 2) == v
      && |r.value.0| == (if |ToBin(v)| >= f.width then |ToBin(v)| else f.width)
  {
    ZFillValue(ToBin(TokenParse(f.kind, args[cursor]).value), f.width, 2);
  }

  /** Puts `bits` in front of the word of a successful result. */
  function PrependBits(bits: string, r: Result<(string, nat)>): Result<(string, nat)> {
    match r
    case Err(e) => Err(e)
    case Ok((more, cursor)) => Ok((bits + more, cursor))
  }

  /** Puts `words` in front of the words of a successful result. */
  function PrependWords(words: seq<string>, r: Result<(seq<string>, nat)>): Result<(seq<string>, nat)> {
    match r
    case Err(e) => Err(e)
    case Ok((more, cursor)) => Ok((words + more, cursor))
  }

  /** One word: its fields' bits concatenated in order, the cursor threaded
      from field to field; the first failing field decides the error. */
  function EncodeWord(spec: WordSpec, opcode: string, args: seq<string>, cursor: nat): (r: Result<(string, nat)>)
    ensures r.Ok? ==> r.value.1 == cursor + TokenCount(spec)
    ensures r.Ok? ==> |r.value.0| >= Width(spec)
    ensures TokenCount(spec) > 0 && cursor + TokenCount(spec) > |args| ==> r.Err?
    ensures r.Err? && r.error.MissingArgument? && cursor <= |args| ==> r.error.index == |args|
  {
    if spec == [] then Ok(("", cursor))
    else
      match EncodeField(spec[0], opcode, args, cursor)
      case Err(e) => Err(e)
      case Ok((bits, next)) => PrependBits(bits, EncodeWord(spec[1..], opcode, args, next))
  }

  /** All words of an instruction, with one cursor shared by all of them. */
  function EncodeWords(specs: seq<WordSpec>, opcode: string, args: seq<string>, cursor: nat): (r: Result<(seq<string>, nat)>)
    ensures r.Ok? ==> |r.value.0| == |specs| && r.value.1 == cursor + WordsTokenCount(specs)
    ensures WordsTokenCount(specs) > 0 && cursor + WordsTokenCount(specs) > |args| ==> r.Err?
    ensures r.Err? && r.error.MissingArgument? && cursor <= |args| ==> r.error.index == |args|
  {
    if specs == [] then Ok(([], cursor))
    else
      match EncodeWord(specs[0], opcode, args, cursor)
      case Err(e) => Err(e)
      case Ok((word, next)) => PrependWords([word], EncodeWords(specs[1..], opcode, args, next))
  }

  /** The encoding of one line: extract and lower-case the mnemonic, look up
      its opcode and its word specifications, split the rest of the line into
      arguments and build every word from the cursor at 0. */
  function EncodeInstruction(line: string): (r: Result<seq<string>>)
  {
    match ExtractInstruction(line)
    case None => Err(NoMnemonic)
    case Some((mnemonic, start)) =>
      var name := Lower(mnemonic);
      if name !in INSTRUCTIONS then Err(UnknownMnemonic(name))
      else
        var opcode := INSTRUCTIONS[name];
        if opcode !in INSTRUCTION_PARSE_MAP then Err(UnknownOpcode(opcode))
        else
          DropCursor(EncodeWords(INSTRUCTION_PARSE_MAP[opcode], opcode, Arguments(line[start..]), 0))
  }

  /** The words of a successful result, without the final cursor. */
  function DropCursor(r: Result<(seq<string>, nat)>): Result<seq<string>> {
    match r
    case Err(e) => Err(e)
    case Ok((words, _)) => Ok(words)
  }

  /** The encoding of a line whose mnemonic is `m`, with the argument list
      starting at `e`. */
  lemma EncodeInstructionOf(line: string, m: string, e: nat)
    requires ExtractInstruction(line) == Some((m, e))
    requires Lower(m) in INSTRUCTIONS
    ensures e <= |line|
    ensures EncodeInstruction(line) ==
      var opcode := INSTRUCTIONS[Lower(m)];
      DropCursor(EncodeWords(INSTRUCTION_PARSE_MAP[opcode], opcode, Arguments(line[e..]), 0))
  {
    TablesAgree();
  }

  lemma PrependBitsTwice(a: string, b: string, r: Result<(string, nat)>)
    ensures PrependBits(a, PrependBits(b, r)) == PrependBits(a + b, r)
  {
    if r.Ok? {
      assert a + (b + r.value.0) == (a + b) + r.value.0;
    }
  }

  lemma PrependWordsTwice(a: seq<string>, b: seq<string>, r: Result<(seq<string>, nat)>)
    ensures PrependWords(a, PrependWords(b, r)) == PrependWords(a + b, r)
  {
    if r.Ok? {
      assert a + (b + r.value.0) == (a + b) + r.value.0;
    }
  }

  lemma PrependBitsEmpty(r: Result<(string, nat)>)
    ensures PrependBits("", r) == r
  {
    if r.Ok? {
      assert "" + r.value.0 == r.value.0;
    }
  }

  /** One step of `EncodeWord`: the field at `j`, then the fields after it. */
  lemma EncodeWordStep(spec: WordSpec, j: nat, opcode: string, args: seq<string>, cursor: nat)
    requires j < |spec|
    ensures EncodeWord(spec[j..], opcode, args, cursor) ==
      match EncodeField(spec[j], opcode, args, cursor)
      case Err(e) => Err(e)
      case Ok((bits, next)) => PrependBits(bits, EncodeWord(spec[j + 1..], opcode, args, next))
  {
    assert spec[j..][0] == spec[j] && spec[j..][1..] == spec[j + 1..];
  }

  /** One step of `EncodeWords`: the word at `i`, then the words after it. */
  lemma EncodeWordsStep(specs: seq<WordSpec>, i: nat, opcode: string, args: seq<string>, cursor: nat)
    requires i < |specs|
    ensures EncodeWords(specs[i..], opcode, args, cursor) ==
      match EncodeWord(specs[i], opcode, args, cursor)
      case Err(e) => Err(e)
      case Ok((word, next)) => PrependWords([word], EncodeWords(specs[i + 1..], opcode, args, next))
  {
    assert specs[i..][0] == specs[i] && specs[i..][1..] == specs[i + 1..];
  }

  /** `parseInstruction`, as the source runs it: extract the mnemonic, look
      up its opcode and its word specifications, split the argument list and
      build the words.  It computes exactly `EncodeInstruction`. */
  method ParseInstruction(line: string) returns (r: Result<seq<string>>)
    ensures r == EncodeInstruction(line)
  {
    var extracted := ExtractInstruction(line);
    if extracted.None? {
      return Err(NoMnemonic);
    }
    var (mnemonic, argumentListStart) := extracted.value;
    var instructionName := Lower(mnemonic);
    if instructionName !in INSTRUCTIONS {
      return Err(UnknownMnemonic(instructionName));
    }
    var opcode := INSTRUCTIONS[instructionName];
    var argumentList := Arguments(line[argumentListStart..]);
    if opcode !in INSTRUCTION_PARSE_MAP {
      return Err(UnknownOpcode(opcode));
    }
    EncodeInstructionOf(line, mnemonic, argumentListStart);
    r := BuildWords(INSTRUCTION_PARSE_MAP[opcode], opcode, argumentList);
  }

  /** The outer loop of `parseInstruction`: one data word per word
      specification, with one argument cursor that is never reset between
      words.  The first word that fails ends the whole encoding with its
      error. */
  method BuildWords(specs: seq<WordSpec>, opcode: string, argumentList: seq<string>) returns (r: Result<seq<string>>)
    ensures r == DropCursor(EncodeWords(specs, opcode, argumentList, 0))
  {
    var currentArgument: nat := 0;
    var words: seq<string> := [];
    ghost var expected := EncodeWords(specs, opcode, argumentList, 0);
    var i := 0;
    assert specs[0..] == specs;
    assert expected.Ok? ==> [] + expected.value.0 == expected.value.0;
    while i < |specs|
      invariant 0 <= i <= |specs|
      invariant expected == PrependWords(words, EncodeWords(specs[i..], opcode, argumentList, currentArgument))
    {
      EncodeWordsStep(specs, i, opcode, argumentList, currentArgument);
      var built := BuildDataWord(specs[i], opcode, argumentList, currentArgument);
      if built.Err? {
        return Err(built.error);
      }
      var (dataWord, next) := built.value;
      PrependWordsTwice(words, [dataWord], EncodeWords(specs[i + 1..], opcode, argumentList, next));
      words := words + [dataWord];
      currentArgument := next;
      i := i + 1;
    }
    assert words + [] == words;
    return Ok(words);
  }

  /** The inner loop of `parseInstruction`: the bits of each field of one
      word specification appended to the data word, in order, reading
      arguments from `cursor` on.  A missing argument or one that does not
      parse ends the encoding with that error. */
  method BuildDataWord(spec: WordSpec, opcode: string, argumentList: seq<string>, cursor: nat) returns (r: Result<(string, nat)>)
    ensures r == EncodeWord(spec, opcode, argumentList, cursor)
  {
    var currentArgument := cursor;
    var dataWord := "";
    var j := 0;
    assert spec[0..] == spec;
    PrependBitsEmpty(EncodeWord(spec, opcode, argumentList, cursor));
    while j < |spec|
      invariant 0 <= j <= |spec|
      invariant EncodeWord(spec, opcode, argumentList, cursor)
        == PrependBits(dataWord, EncodeWord(spec[j..], opcode, argumentList, currentArgument))
    {
      EncodeWordStep(spec, j, opcode, argumentList, currentArgument);
      ghost var before := currentArgument;
      var bits: string;
      match spec[j] {
        case Const(constant) =>
          bits := constant;
        case OpcodeF(width) =>
          bits := ZFill(opcode, width);
        case TokenF(kind, width) =>
          if currentArgument >= |argumentList| {
            return Err(MissingArgument(currentArgument));
          }
          var parsed := TokenParse(kind, argumentList[currentArgument]);
          if parsed.Err? {
            return Err(parsed.error);
          }
          bits := ZFill(ToBin(parsed.value), width);
          currentArgument := currentArgument + 1;
      }
      assert EncodeField(spec[j], opcode, argumentList, before) == Ok((bits, currentArgument));
      PrependBitsTwice(dataWord, bits, EncodeWord(spec[j + 1..], opcode, argumentList, currentArgument));
      dataWord := dataWord + bits;
      j := j + 1;
    }
    assert dataWord + "" == dataWord;
    return Ok((dataWord, currentArgument));
  }
}
