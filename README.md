# Assembler for a 16-bit teaching processor, as Dafny

This project models the core of `assembler.py`, a line assembler written in Python 2. It covers the following:

- The token patterns, modelled as prefix matchers. These are `$n` registers, plus hexadecimal `0x…`, binary `b…`, decimal and `'c'` character literals.
- The converters that turn a matched token into a number. `parseRegister` enforces the register bound and `parseNumericLiteral` enforces the literal bound.
- The `instructions` table, mapping mnemonic to opcode.
- The `instructionParseMap` table, mapping opcode to the field layout of each data word.
- `parseInstruction`, which encodes one source line as a list of data words written as strings of `0`/`1`.

The modules follow the program's structure:

| module | file | contents |
|---|---|---|
| `Errors` | `errors.dfy` | `Option`, `Result`, token kinds and the error cases the assembler raises |
| `Text` | `text.dfy` | the parts of Python's string library the assembler relies on: character classes of `re` (`\s`, `\w`, `\d`), greedy runs, `strip`, `split(',')`, `lower`, `int(s, base)`, `bin(n)[2:]`, `zfill` |
| `Tokens` | `tokens.dfy` | the `tokens` patterns, `parseRegister`, the `tokenParse` converters, `parseNumericLiteral` and the assembler's constants |
| `Tables` | `tables.dfy` | `instructions` and `instructionParseMap` |
| `Encoder` | `encoder.dfy` | the encoding as functions (`EncodeField`, `EncodeWord`, `EncodeWords`, `EncodeInstruction`), and `parseInstruction` as imperative methods with loops proved equal to those functions |
| `EncoderProperties` | `encoder_properties.dfy` | what the encoding promises: error cases, case-insensitivity, the shared argument cursor, surplus arguments, the per-instruction layout, word counts and widths |
| `Samples` | `samples.dfy` | the encodings of some of the demo list's lines (assembler.py:233-247), every line it comments out because it should fail, and a few more lines that fail |

An error that the Python raises as an exception is a value of `Errors.Error` here:

| Python exception | `Errors.Error` value |
|---|---|
| `AttributeError`: no mnemonic on the line | `NoMnemonic` |
| `KeyError`: the mnemonic is not in `instructions` | `UnknownMnemonic` |
| `IndexError`: the argument list ran out | `MissingArgument(i)` |
| `SyntaxError("Could not parse …")` | `CouldNotParse` |
| the register bound's `SyntaxError` | `RegisterOutOfRange` |
| the literal bound's `SyntaxError` | `OversizedLiteral` |
| `ValueError` from `int(c, 2)` on a character literal | `NotBinaryDigit` |

The model follows the code as written, also where it does what its comments (assembler.py:48-49, 121-122) or a reader might not expect:

- **Register bound.** `parseRegister` rejects only numbers greater than `NUM_REGISTERS`, so `$8` is accepted. Its 3-bit field then zero-fills to `1000`, and the word is 17 bits long (`RegisterEightWidens`, `RegisterEightLine`). The error message says the largest index is 7.
- **Bare mnemonic.** `''.split(',')` is `['']`, so a mnemonic with nothing after it has one empty argument. That argument fails as a register (`CouldNotParse`), not as a missing argument (`BareMnemonicLine`).
- **Surplus arguments.** Arguments beyond those the layout consumes are ignored (`SurplusArgumentsIgnored`).
- **No width check.** Nothing checks that a field fits its width. `zfill` only pads, so a wide value widens the word instead of being rejected.
- **Character literals.** `literal_char` converts with `int(c, 2)`. `'0'` and `'1'` give 0 and 1, and every other word character is an error (`CharSyntax`).
- **Unmatched literal.** A numeric literal matching none of the four patterns is 0 (`UnmatchedLiteralIsZero`).
- **Line 188.** It reads the global `example` instead of the parameter `line`. Every call in the file has `example == line`, so the model uses `line`.

## Model

| member | source | states |
|---|---|---|
| Tokens.MaxLiteralIsWordMax | assembler.py:57-58 | `MAX_LITERAL_VALUE` is 2 to the power `MEMORY_WIDTH`, minus 1 |
| Tokens.MatchRegister | assembler.py:96 | `\$(\d+)` matches exactly when the argument starts with `$` and a digit; the capture is the greedy run of digits after the `$` |
| Tokens.MatchHex | assembler.py:97 | `0[xX]([\da-fA-F]+)` matches exactly when the argument starts with `0x` or `0X` and a hex digit; the capture is the greedy run of hex digits |
| Tokens.MatchBinary | assembler.py:100 | `[bB]([01]+)` matches exactly when the argument starts with `b` or `B` and a binary digit; the capture is the greedy run of binary digits |
| Tokens.MatchDecimal | assembler.py:99 | `\d+` matches exactly when the argument starts with a digit; the match is the greedy run of digits |
| Tokens.MatchChar | assembler.py:98 | `'(\w)'` matches exactly when the argument starts with a quote, a word character and a quote; the capture is that character |
| Tokens.ParseRegister | assembler.py:118-124 | a result is at most `NUM_REGISTERS` and is the decimal value of the digits after `$`; the only errors are "could not parse" (exactly when the pattern does not match) and "out of range" |
| Tokens.ParseHex | assembler.py:130 | succeeds exactly when the hex pattern matches, with the base-16 value of the captured digits; otherwise fails with "could not parse" as hex |
| Tokens.ParseBinary | assembler.py:134 | succeeds exactly when the binary pattern matches, with the base-2 value of the captured digits; otherwise fails with "could not parse" as binary |
| Tokens.ParseDecimal | assembler.py:132 | succeeds exactly when the decimal pattern matches, with the base-10 value of the matched digits; otherwise fails with "could not parse" as decimal |
| Tokens.ConverterSpellings | assembler.py:130-134 | each of the hex, binary and decimal converters reads `0x`/`b`/nothing + any leading zeros + the digits of n in its base back as n, without a bound |
| Tokens.HexConverterSpelling | assembler.py:130 | the hex converter reads `0x` + zeros + the hex digits of n as n |
| Tokens.BinaryConverterSpelling | assembler.py:134 | the binary converter reads `b` + zeros + the binary digits of n as n |
| Tokens.DecimalConverterSpelling | assembler.py:132 | the decimal converter reads zeros + the decimal digits of n as n |
| Tokens.ParseChar | assembler.py:136 | succeeds exactly when the character pattern matches and the character is `0` or `1`, with that digit's value; otherwise "could not parse" or "not a binary digit" |
| Tokens.ParseNumericLiteral | assembler.py:103-116 | a result never exceeds `MAX_LITERAL_VALUE`; the only errors are an oversized literal and a character literal that is not a binary digit, and the latter happens exactly for a quoted non-binary character |
| Tokens.TokenParse | assembler.py:126-139 | a register result is at most `NUM_REGISTERS`, a numeric literal result at most `MAX_LITERAL_VALUE`, and a "could not parse" error names the argument and the token kind asked for |
| Tokens.RegisterSyntax | assembler.py:118-124 | `$` + any leading zeros + the decimal digits of n, followed by a non-digit or nothing, is register n when n ≤ `NUM_REGISTERS` and out of range otherwise |
| Tokens.RegisterBound | assembler.py:120 | `$n` is accepted exactly for n ≤ 8 (the bound is `>` on `NUM_REGISTERS`) and out of range above |
| Tokens.HexTakesPriority | assembler.py:105-106 | a hex literal also matches the decimal pattern (as `0`), but it is read as hexadecimal |
| Tokens.LiteralPatternsOverlap | assembler.py:95-101 | a binary literal matches no other literal pattern, a decimal one matches neither binary nor char, and a char literal matches none of the others; so only hex versus decimal depends on the order of the tests |
| Tokens.UnmatchedLiteralIsZero | assembler.py:104 | an argument that matches none of the four literal patterns is the literal 0 |
| Tokens.BinaryWhenMatched | assembler.py:107-108 | when the binary pattern matches, the literal is the base-2 value of its digits, subject to the bound |
| Tokens.DecimalWhenMatched | assembler.py:109-110 | when hex does not match and decimal does, the literal is the base-10 value of the digit run, subject to the bound |
| Tokens.HexMatched | assembler.py:97 | `0x` + hex digits + a non-hex-digit tail captures exactly those digits |
| Tokens.HexSyntax | assembler.py:105-106 | `0x` + hex digits + a non-hex-digit tail is the base-16 value of those digits, subject to the bound |
| Tokens.BinaryMatched | assembler.py:100 | `b` + binary digits + a non-binary tail captures exactly those digits |
| Tokens.BinarySyntax | assembler.py:107-108 | `b` + binary digits + a non-binary tail is the base-2 value of those digits, subject to the bound |
| Tokens.DecimalSyntax | assembler.py:109-110 | a run of decimal digits that does not start a hex literal is its base-10 value, subject to the bound |
| Tokens.CharSyntax | assembler.py:111-112 | `'0'` is 0, `'1'` is 1, and every other quoted word character is a "not a binary digit" error |
| Tokens.SameValueInEveryBase | assembler.py:103-116 | for every value up to `MAX_LITERAL_VALUE`, its hex, binary and decimal spellings (with any leading zeros) all parse to that value |
| Tokens.OversizedInEveryBase | assembler.py:113-114 | for every value above `MAX_LITERAL_VALUE`, each of its three spellings is rejected as oversized |
| Tokens.SpellingValues | assembler.py:103-116 | each of the three spellings of n is n, subject to the bound |
| Tokens.HexSpelling | assembler.py:105-106 | `0x` + zeros + the hex digits of n is n, subject to the bound |
| Tokens.BinarySpelling | assembler.py:107-108 | `b` + zeros + the binary digits of n is n, subject to the bound |
| Tokens.DecimalSpelling | assembler.py:109-110 | zeros + the decimal digits of n is n, subject to the bound |
| Tokens.FifteenThreeWays | assembler.py:241-243 | `0x000F`, `b1111` and `15` are all the literal 15 |
| Tokens.HexFifteen | assembler.py:241 | `0x000F` is 15 |
| Tokens.BinaryFifteen | assembler.py:243 | `b1111` is 15 |
| Tokens.DecimalFifteen | assembler.py:242 | `15` is 15 |
| Tables.TablesAgree | assembler.py:86-91 | every opcode in `instructions` has an entry in `instructionParseMap`, and no two mnemonics share an opcode |
| Tables.WordCounts | assembler.py:159-167 | `mv`, `add` and `sub` each have one data word and `mvi` has two; every instruction consumes exactly two arguments |
| Tables.SpecsAreWordWide | assembler.py:159-167 | every word specification's declared field widths sum to `MEMORY_WIDTH` |
| Text.Run | assembler.py:76 | a greedy run of a character class is a prefix made only of that class, followed by a character outside it or by the end |
| Text.RunOfConcat | assembler.py:76 | the run over a string of class characters followed by a non-class character is exactly that string |
| Text.StripEnd | assembler.py:188 | the result is a prefix without trailing whitespace, and only whitespace was removed |
| Text.Strip | assembler.py:188 | `strip` leaves the middle of the string: only whitespace is removed, leading and trailing, and the result neither starts nor ends with whitespace |
| Text.StripOf | assembler.py:188 | whitespace + a word without surrounding whitespace + whitespace strips to that word |
| Text.Split | assembler.py:188 | `split(',')` gives at least one piece, and no piece contains the separator |
| Text.JoinSplit | assembler.py:188 | joining the pieces of `split` with the separator recovers the string |
| Text.SplitJoin | assembler.py:188 | splitting pieces without the separator, after joining them, gives those pieces back |
| Text.SplitConcat | assembler.py:188 | splitting `a + ',' + b` gives the pieces of `a` followed by the pieces of `b` |
| Text.SplitWithout | assembler.py:188 | a string without the separator splits to itself alone |
| Text.Lower | assembler.py:183 | `lower` keeps the length and lowers each character |
| Text.LowerWord | assembler.py:183 | lowering keeps a mnemonic a word and is idempotent |
| Text.ToDigits | assembler.py:119 | the digits of n in a base are digits of that base, have no leading zero unless n is 0, and are `0` exactly for 0 |
| Text.DigitsRoundTrip | assembler.py:119 | `int` of the digits of n in that base is n |
| Text.ToBin | assembler.py:223 | `bin(n)[2:]` is a non-empty binary string whose base-2 value is n |
| Text.BinLength | assembler.py:223 | `bin(n)[2:]` has at most k digits exactly when n < 2^k |
| Text.ZFill | assembler.py:211 | `zfill(w)` pads on the left with zeros to length w and never truncates |
| Text.LeadingZeros | assembler.py:223 | leading zeros do not change a numeral's value |
| Text.ZFillValue | assembler.py:223 | zero-filling keeps the value and keeps a binary string binary |
| Encoder.ExtractInstruction | assembler.py:76 | a match is a non-empty word after leading whitespace, ending at a non-word character or the end of the line; there is no match exactly when the first non-space character is not a word character |
| Encoder.Arguments | assembler.py:188 | the argument list has one stripped entry per comma-separated piece of the rest of the line |
| Encoder.EncodeField | assembler.py:202-224 | a constant appends its bits, an opcode field appends the zero-filled opcode, and neither moves the cursor; a token field fails with a missing argument past the end of the list, fails with the converter's error, or consumes exactly one argument and is at least as wide as declared |
| Encoder.TokenFieldReadsBack | assembler.py:215-223 | a converted token's bits are binary, read back as the converted value, and are as long as the declared width unless the value needs more digits |
| Encoder.EncodeWord | assembler.py:197-226 | a built word consumes one argument per token field and is at least as wide as its specification; running out of arguments is an error naming the first missing index |
| Encoder.EncodeWords | assembler.py:196-227 | there is one word per word specification, the cursor is shared across words, and running out of arguments is an error naming the first missing index |
| Encoder.EncodeInstructionOf | assembler.py:179-196 | a line with a known mnemonic encodes by its opcode's word specifications over the rest of the line's arguments, from cursor 0 |
| Encoder.ParseInstruction | assembler.py:179-227 | the method computes exactly `EncodeInstruction(line)`, the words or the error |
| Encoder.BuildWords | assembler.py:191-227 | the outer loop over data-word specifications computes exactly the words (or first error) of `EncodeWords` from cursor 0 |
| Encoder.BuildDataWord | assembler.py:197-225 | the inner loop over fields computes exactly the word (or error) and final cursor of `EncodeWord` |
| EncoderProperties.ExtractOf | assembler.py:76 | whitespace + a word + a non-word tail extracts that word, ending after it |
| EncoderProperties.ArgumentsConcat | assembler.py:188 | the arguments of `a + ',' + b` are the arguments of `a` followed by those of `b` |
| EncoderProperties.ArgumentsSingle | assembler.py:188 | text without a comma is one argument, stripped |
| EncoderProperties.LookupErrors | assembler.py:180-184 | a line fails with "no mnemonic" exactly when its extraction fails, and fails with "unknown mnemonic" exactly when the lowered mnemonic is not in `instructions`; the opcode lookup never fails |
| EncoderProperties.EncodeWordErrors | assembler.py:198-225 | building a word never raises a lookup error |
| EncoderProperties.EncodeWordsErrors | assembler.py:196-226 | building the words never raises a lookup error |
| EncoderProperties.TokenErrors | assembler.py:113-139 | a converter fails only with "could not parse", out of range, oversized or not a binary digit |
| EncoderProperties.MnemonicCaseIgnored | assembler.py:183 | a line encodes the same as the same line with its mnemonic lower-cased |
| EncoderProperties.FieldIgnoresSurplus | assembler.py:215 | appending arguments does not change a field that reads an existing argument |
| EncoderProperties.WordIgnoresSurplus | assembler.py:198-225 | appending arguments does not change a word whose arguments are all present |
| EncoderProperties.WordsIgnoreSurplus | assembler.py:196-226 | appending arguments does not change words whose arguments are all present |
| EncoderProperties.ExtractIgnoresTail | assembler.py:76 | appending text that starts with a non-word character to a line with a mnemonic does not change what is extracted |
| EncoderProperties.OpcodeIgnoresSurplus | assembler.py:188-227 | an extra comma-separated argument does not change a successful encoding of an opcode's words |
| EncoderProperties.SurplusArgumentsIgnored | assembler.py:179-227 | a line that encodes encodes the same with `,` and any text appended |
| EncoderProperties.SameMnemonicSameEncoding | assembler.py:179-227 | two lines with the same mnemonic, one the other plus a surplus argument, encode alike |
| EncoderProperties.TooFewArguments | assembler.py:188-224 | a known instruction written without a comma always fails, and if it fails for a missing argument that argument is index 1 |
| EncoderProperties.LastRegisterField | assembler.py:214-224 | a one-register word is the register's 3-bit zero-fill or the register's error, or a missing argument |
| EncoderProperties.SingleTokenField | assembler.py:214-224 | a one-token word is the token's zero-filled bits and consumes one argument, or fails with that argument's error or as missing |
| EncoderProperties.RegisterFields | assembler.py:160 | two register fields read arguments 0 and 1 in order, each 3 bits, and the first failing argument decides the error |
| EncoderProperties.SingleWord | assembler.py:196-227 | a one-word specification yields that word or its error |
| EncoderProperties.RegisterPairWord | assembler.py:160 | the register-to-register word specification builds `opcode in 10 bits + register in 3 + register in 3` |
| EncoderProperties.RegisterPairLayout | assembler.py:160-166 | `mv`, `add` and `sub` each encode by the register-to-register layout |
| EncoderProperties.ImmediateFirstFields | assembler.py:162 | the register and constant fields of `mvi`'s first word are the register's 3 bits and `000`, reading argument 0 |
| EncoderProperties.ImmediateFirstWord | assembler.py:162 | `mvi`'s first word is opcode `001` in 10 bits, argument 0's register in 3 bits and `000` |
| EncoderProperties.ImmediateLiteralWord | assembler.py:163 | `mvi`'s second word reads argument 1 (the cursor after the first word) as a 16-bit numeric literal |
| EncoderProperties.ImmediateLayout | assembler.py:161-164 | `mvi` encodes as two words: the opcode-and-register word, then the literal word from the next argument |
| EncoderProperties.TwoWords | assembler.py:196-227 | two word specifications yield two words, the second starting at the cursor the first left |
| EncoderProperties.InstructionLayout | assembler.py:179-227 | a line with a known mnemonic encodes as its instruction's layout over the line's arguments |
| EncoderProperties.OpcodeLayout | assembler.py:159-167 | each opcode's entry encodes by its layout |
| EncoderProperties.WordCount | assembler.py:196-227 | a successful `mvi` line yields two words and every other successful line yields one |
| EncoderProperties.OpcodeWordCount | assembler.py:159-167 | a successful encoding of an opcode yields as many words as its layout declares |
| EncoderProperties.KnownMnemonic | assembler.py:180-184 | a line that encodes has a mnemonic, and its lowercased mnemonic is in `instructions` |
| EncoderProperties.RegisterBits | assembler.py:223 | a register below `NUM_REGISTERS` zero-fills to exactly 3 binary digits that read back as it |
| EncoderProperties.RegisterWidth | assembler.py:223 | a register below `NUM_REGISTERS` zero-fills to exactly 3 digits |
| EncoderProperties.LiteralBits | assembler.py:223 | a literal up to `MAX_LITERAL_VALUE` zero-fills to exactly `MEMORY_WIDTH` binary digits that read back as it |
| EncoderProperties.LiteralWide | assembler.py:223 | a literal up to `MAX_LITERAL_VALUE` zero-fills to exactly `MEMORY_WIDTH` binary digits |
| EncoderProperties.RegisterPairFields | assembler.py:160 | for registers below 8, a register-to-register word is 16 bits; the first 10 bits are the zero-filled opcode, and bits 10-12 and 13-15 read back as the two registers |
| EncoderProperties.RegisterPairBinary | assembler.py:160 | a register-to-register word is binary |
| EncoderProperties.ImmediateFields | assembler.py:162 | for a register below 8, `mvi`'s first word is 16 bits: the zero-filled opcode `001`, bits 10-12 reading back as the register, then `000` |
| EncoderProperties.ImmediateBinary | assembler.py:162 | `mvi`'s first word is binary |
| EncoderProperties.RegisterEightWidens | assembler.py:118-124 | `$8` is accepted, and a register-to-register word naming it as first register is 17 bits long |
| EncoderProperties.RegisterPairWordWide | assembler.py:160 | when neither register argument (0 and 1) is register 8, a register-to-register word is `MEMORY_WIDTH` binary digits |
| EncoderProperties.RegisterPairArguments | assembler.py:160 | a successful register-to-register encoding whose register arguments are not register 8 has both registers below 8 |
| EncoderProperties.RegisterPairShape | assembler.py:160 | a successful register-to-register encoding took at least two arguments, parsed arguments 0 and 1 as its registers and built one word from them |
| EncoderProperties.RegisterBelowEight | assembler.py:118-124 | an accepted register other than 8 is below `NUM_REGISTERS` |
| EncoderProperties.ImmediateWordWide | assembler.py:161-164 | when the register argument (argument 0) is not register 8, both `mvi` words are `MEMORY_WIDTH` binary digits, whatever the literal argument is |
| EncoderProperties.ImmediateArguments | assembler.py:161-164 | a successful `mvi` encoding whose register argument is not register 8 has a register below 8 and a literal within the bound |
| EncoderProperties.ImmediateShape | assembler.py:161-164 | a successful `mvi` encoding took argument 0 as its register and argument 1 as its literal, the literal within the bound |
| EncoderProperties.WordsAreWordWide | assembler.py:179-227 | every word of a successful line whose register arguments (the first two, or the first for `mvi`) are not register 8 is `MEMORY_WIDTH` binary digits; literal and surplus arguments are unconstrained |
| EncoderProperties.LayoutWordWide | assembler.py:159-167 | every word of a successful layout whose register arguments are not register 8 is `MEMORY_WIDTH` binary digits |
| EncoderProperties.RegisterPairName | assembler.py:86-91 | every mnemonic other than `mvi` has a register-to-register opcode and reads two register arguments |
| Samples.TwoArgumentLine | assembler.py:180-188 | whitespace before and after the mnemonic, around each argument and at the end of the line is ignored: a known mnemonic with two arguments encodes by its layout over exactly those two |
| Samples.OneArgumentLine | assembler.py:180-188 | a known mnemonic with one argument, with whitespace around it, encodes by its layout over that argument alone |
| Samples.ArgumentsOfRest | assembler.py:188 | `sp a q , sp b q` splits and strips to `[a, b]` whatever whitespace surrounds the arguments |
| Samples.OneArgument | assembler.py:188 | an argument with whitespace around it and no comma is that argument alone |
| Samples.RegisterValue | assembler.py:118-124 | `$n` for a digit n is n up to 8 and out of range for 9 |
| Samples.HexOne | assembler.py:235 | `0x1` is 1 |
| Samples.HexSixteen | assembler.py:105-110 | `0x10` is 16, although the decimal pattern matches its `0` |
| Samples.MoveLine | assembler.py:234 | `    mv $0, $1` is the single word `0000000000000001` |
| Samples.MoveWord | assembler.py:234 | `mv` over `$0`, `$1` is `0000000000000001` |
| Samples.MoveImmediateLine | assembler.py:235 | ` mvI $4, 0x1` is the words `0000000001100000` and `0000000000000001` |
| Samples.MoveImmediateWords | assembler.py:235 | `mvi` over `$4`, `0x1` is those two words |
| Samples.OutOfRangeLine | assembler.py:238 | `add $7, $9` fails because register 9 is out of range |
| Samples.NotARegisterLine | assembler.py:247 | `add $d, $2` fails because `$d` cannot be parsed as a register |
| Samples.RegisterEightLine | assembler.py:120 | `mv $8, $0` is accepted and gives the 17-bit word `00000000001000000` |
| Samples.MissingSecondLine | assembler.py:215 | `mv $0` fails because argument 1 is missing |
| Samples.BareMnemonicLine | assembler.py:188 | `mv` alone fails because its one (empty) argument cannot be parsed as a register |
| Samples.OversizedLine | assembler.py:236 | `mvi $0, 0x12345` fails because the literal is larger than `MAX_LITERAL_VALUE` |
| Samples.SpacedMoveLine | assembler.py:234 | `mv       $2,   $3` is the single word `0000000000010011` |
| Samples.RegisterTenLine | assembler.py:239 | `sub $0, $10` fails because register 10 is out of range |
| Samples.FifteenLines | assembler.py:241-243 | `mvi $0, 0x000F`, `mvi $0, 15` and `mvi $0, b1111` succeed and encode to the same words |
| Samples.FifteenWords | assembler.py:241-243 | `mvi` over `$0` and each spelling of fifteen builds the same words |

## Left out

- The demo driver (assembler.py:233-269): it prints each example, reformats it and encodes it. Only the encodings are modelled, in `Samples`.
- The `whitespace` pattern (assembler.py:73): only the driver uses it.
- `memory`, `ADDRESS_SEPARATOR` and `MEMORY_DEPTH` (assembler.py:55-56, 60): nothing in the encoder reads them.
- fileParse.py: it holds only comments planning a two-pass label resolver and has no code. It is not part of this model.
- Exception messages: an error is an `Error` value, without the Python message text.
- IndexError: its index is kept, as `MissingArgument(i)`.
- The regular-expression engine: each pattern is modelled by its own prefix matcher. `re.IGNORECASE` on the extraction pattern changes nothing for `\s` and `\w` and is not modelled.
- `str` is modelled as `seq<char>`, with ASCII `lower` and ASCII character classes, as on Python 2 byte strings.
- In-place string building: `data_word += …` and `words.append` are updates of local `string` and `seq` variables in the methods. There is no aliasing to model.
- The two nested loops of `parseInstruction` are each in a method of their own: `BuildWords` loops over the word specifications and `BuildDataWord` over the fields of one word. `ParseInstruction` keeps the lookups before the loops and calls `BuildWords`.
- EncoderProperties.WordsAreWordWide: requires that no register argument parses as register 8. The code's `>` bound lets `$8` through, and such a word is 17 bits (`RegisterEightWidens`, `Samples.RegisterEightLine`).
- Encoder.EncodeField: its contract for a token field states the cursor and a lower bound on the length. The bits' value and exact length are stated by `Encoder.TokenFieldReadsBack`.
