/** Shared vocabulary of the assembler model: optional values, results, the
    kinds of argument token an encoding field can ask for, and the ways in
    which encoding one line can fail.  The Python source signals each failure
    with an exception; here every exception becomes one `Error` variant. */
module Errors {

  datatype Option<+T> = None | Some(value: T)

  /** The token kinds that appear as keys of the source's `tokenParse` table. */
  datatype TokenKind =
    | Register
    | LiteralHex
    | LiteralDecimal
    | LiteralBinary
    | LiteralChar
    | NumericLiteral

  datatype Error =
    /** `extractInstruction` found no leading word: `match` is None and
        `match.group(1)` fails. */
    | NoMnemonic
    /** A lower-cased mnemonic that is not a key of `instructions`. */
    | UnknownMnemonic(name: string)
    /** An opcode with no entry in `instructionParseMap`. */
    | UnknownOpcode(opcode: string)
    /** The shared argument cursor points past the argument list. */
    | MissingArgument(index: nat)
    /** The token pattern of `kind` does not match the argument. */
    | CouldNotParse(argument: string, kind: TokenKind)
    /** A register index larger than the register bound. */
    | RegisterOutOfRange(argument: string)
    /** A numeric literal larger than the largest word value. */
    | OversizedLiteral(argument: string)
    /** A quoted character literal whose character is not a binary digit. */
    | NotBinaryDigit(argument: string)

  datatype Result<+T> = Ok(value: T) | Err(error: Error)
}
