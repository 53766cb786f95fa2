/** The lexical layer of the assembler: the five token patterns of the
    `tokens` table, matched at the start of an argument (Python's `re.match`
    anchors at the start and does not require the whole argument to match),
    and the converters of the `tokenParse` table that turn a matched argument
    into a number. */
module Tokens {
  import opened Errors
  import opened Text

  /** Register indices above this bound are rejected.  The comparison is
      `>`, so the bound itself, `$8`, is accepted. */
  const NUM_REGISTERS: nat := 8

  /** Bits per memory word. */
  const MEMORY_WIDTH: nat := 16

  /** The largest numeric literal, `2**MEMORY_WIDTH - 1`. */
  const MAX_LITERAL_VALUE: nat := 65535

  lemma MaxLiteralIsWordMax()
    ensures MAX_LITERAL_VALUE == Pow2(MEMORY_WIDTH) - 1
  {
    assert Pow2(4) == 16 by {
      assert Pow2(1) == 2;
      assert Pow2(2) == 4;
      assert Pow2(3) == 8;
    }
    assert Pow2(8) == 256 by {
      assert Pow2(5) == 32;
      assert Pow2(6) == 64;
      assert Pow2(7) == 128;
    }
    assert Pow2(12) == 4096 by {
      assert Pow2(9) == 512;
      assert Pow2(10) == 1024;
      assert Pow2(11) == 2048;
    }
    assert Pow2(16) == 65536 by {
      assert Pow2(13) == 8192;
      assert Pow2(14) == 16384;
      assert Pow2(15) == 32768;
    }
  }

  /** `\$(\d+)`: the digits after a leading `$`. */
  function MatchRegister(s: string): (m: Option<string>)
    ensures m.Some? <==> |s| >= 2 && s[0] == '$' && InClass(s[1], Digit)
    ensures m.Some? ==> GreedyAt(s, 1, m.value, Digit)
  {
    if |s| >= 2 && s[0] == '$' && InClass(s[1], Digit) then Some(Run(s[1..], Digit)) else None
  }

  /** `0[xX]([\da-fA-F]+)`: the hexadecimal digits after `0x` or `0X`. */
  function MatchHex(s: string): (m: Option<string>)
    ensures m.Some? <==> |s| >= 3 && s[0] == '0' && (s[1] == 'x' || s[1] == 'X') && InClass(s[2], HexDigit)
    ensures m.Some? ==> GreedyAt(s, 2, m.value, HexDigit)
  {
    if |s| >= 3 && s[0] == '0' && (s[1] == 'x' || s[1] == 'X') && InClass(s[2], HexDigit)
    then Some(Run(s[2..], HexDigit))
    else None
  }

  /** `[bB]([01]+)`: the binary digits after `b` or `B`. */
  function MatchBinary(s: string): (m: Option<string>)
    ensures m.Some? <==> |s| >= 2 && (s[0] == 'b' || s[0] == 'B') && InClass(s[1], BinDigit)
    ensures m.Some? ==> GreedyAt(s, 1, m.value, BinDigit)
  {
    if |s| >= 2 && (s[0] == 'b' || s[0] == 'B') && InClass(s[1], BinDigit)
    then Some(Run(s[1..], BinDigit))
    else None
  }

  /** `\d+`: the leading decimal digits (the whole match, group 0). */
  function MatchDecimal(s: string): (m: Option<string>)
    ensures m.Some? <==> |s| >= 1 && InClass(s[0], Digit)
    ensures m.Some? ==> GreedyAt(s, 0, m.value, Digit)
  {
    if |s| >= 1 && InClass(s[0], Digit) then Some(Run(s, Digit)) else None
  }

  /** `'(\w)'`: one word character between single quotes. */
  function MatchChar(s: string): (m: Option<string>)
    ensures m.Some? <==> |s| >= 3 && s[0] == '\'' && InClass(s[1], Word) && s[2] == '\''
    ensures m.Some? ==> m.value == s[1..2]
  {
    if |s| >= 3 && s[0] == '\'' && InClass(s[1], Word) && s[2] == '\'' then Some(s[1..2]) else None
  }

  /** `parseRegister`: the decimal value of the digits after `$`, rejected
      when it exceeds `NUM_REGISTERS`.  An argument the pattern does not
      match makes `match(...).group` fail, which the encoder reports as
      "could not parse". */
  function ParseRegister(s: string): (r: Result<nat>)
    ensures r.Ok? ==> r.value <= NUM_REGISTERS
    ensures r.Ok? ==> MatchRegister(s).Some? && r.value == Value(MatchRegister(s).value, 10)
    ensures r.Err? ==> r.error == CouldNotParse(s, Register) || r.error == RegisterOutOfRange(s)
    ensures r == Err(CouldNotParse(s, Register)) <==> MatchRegister(s).None?
  {
    match MatchRegister(s)
    case None => Err(CouldNotParse(s, Register))
    case Some(digits) =>
      var n := Value(digits, 10);
      if n > NUM_REGISTERS then Err(RegisterOutOfRange(s)) else Ok(n)
  }

  /** `tokenParse['literal_hex']`: `int(group(1), 16)`. */
  function ParseHex(s: string): (r: Result<nat>)
    ensures r.Err? <==> r == Err(CouldNotParse(s, LiteralHex))
    ensures r.Ok? <==> MatchHex(s).Some?
    ensures r.Ok? ==> r.value == Value(MatchHex(s).value, 16)
  {
    match MatchHex(s)
    case None => Err(CouldNotParse(s, LiteralHex))
    case Some(digits) => Ok(Value(digits, 16))
  }

  /** `tokenParse['literal_binary']`: `int(group(1), 2)`. */
  function ParseBinary(s: string): (r: Result<nat>)
    ensures r.Err? <==> r == Err(CouldNotParse(s, LiteralBinary))
    ensures r.Ok? <==> MatchBinary(s).Some?
    ensures r.Ok? ==> r.value == Value(MatchBinary(s).value, 2)
  {
    match MatchBinary(s)
    case None => Err(CouldNotParse(s, LiteralBinary))
    case Some(digits) => Ok(Value(digits, 2))
  }

  /** `tokenParse['literal_decimal']`: `int(group(0), 10)`. */
  function ParseDecimal(s: string): (r: Result<nat>)
    ensures r.Err? <==> r == Err(CouldNotParse(s, LiteralDecimal))
    ensures r.Ok? <==> MatchDecimal(s).Some?
    ensures r.Ok? ==> r.value == Value(MatchDecimal(s).value, 10)
  {
    match MatchDecimal(s)
    case None => Err(CouldNotParse(s, LiteralDecimal))
    case Some(digits) => Ok(Value(digits, 10))
  }

  /** `tokenParse['literal_char']`: `int(group(1), 2)`, so the quoted
      character is read as a binary digit string and any character other
      than `0` or `1` raises `ValueError`. */
  function ParseChar(s: string): (r: Result<nat>)
    ensures r.Ok? ==> MatchChar(s).Some? && r.value <= 1
    ensures r.Ok? <==> MatchChar(s).Some? && (s[1] == '0' || s[1] == '1')
    ensures r.Ok? ==> r.value == DigitValue(s[1])
    ensures r.Err? ==> r.error == CouldNotParse(s, LiteralChar) || r.error == NotBinaryDigit(s)
  {
    match MatchChar(s)
    case None => Err(CouldNotParse(s, LiteralChar))
    case Some(c) =>
      if AllIn(c, BinDigit) then
        assert |c| == 1 && c[..0] == [];
        assert Value(c, 2) == DigitValue(c[0]);
        Ok(Value(c, 2))
      else Err(NotBinaryDigit(s))
  }

  /** The bound check at the end of `parseNumericLiteral`. */
  function Bounded(s: string, v: nat): Result<nat> {
    if v > MAX_LITERAL_VALUE then Err(OversizedLiteral(s)) else Ok(v)
  }

  /** `parseNumericLiteral`: hex, then binary, then decimal, then char; the
      first pattern that matches decides, an argument matching none of them
      is 0, and a value above `MAX_LITERAL_VALUE` is rejected. */
  function ParseNumericLiteral(s: string): (r: Result<nat>)
    ensures r.Ok? ==> r.value <= MAX_LITERAL_VALUE
    ensures r.Err? ==> r.error == OversizedLiteral(s) || r.error == NotBinaryDigit(s)
    ensures r == Err(NotBinaryDigit(s)) <==> MatchChar(s).Some? && !InClass(s[1], BinDigit)
  {
    var raw :=
      if MatchHex(s).Some? then ParseHex(s)
      else if MatchBinary(s).Some? then ParseBinary(s)
      else if MatchDecimal(s).Some? then ParseDecimal(s)
      else if MatchChar(s).Some? then ParseChar(s)
      else Ok(0);
    match raw
    case Err(e) => Err(e)
    case Ok(v) => Bounded(s, v)
  }

  /** The `tokenParse` table: the converter for each token kind. */
  function TokenParse(kind: TokenKind, s: string): (r: Result<nat>)
    ensures kind == Register && r.Ok? ==> r.value <= NUM_REGISTERS
    ensures kind == NumericLiteral && r.Ok? ==> r.value <= MAX_LITERAL_VALUE
    ensures r.Err? && r.error.CouldNotParse? ==> r.error == CouldNotParse(s, kind)
  {
    match kind
    case Register => ParseRegister(s)
    case LiteralHex => ParseHex(s)
    case LiteralDecimal => ParseDecimal(s)
    case LiteralBinary => ParseBinary(s)
    case LiteralChar => ParseChar(s)
    case NumericLiteral => ParseNumericLiteral(s)
  }

  // ---------------------------------------------------------------------
  // Properties of the recognisers and converters
  // ---------------------------------------------------------------------

  /** `$` followed by a decimal number (leading zeros allowed) and by
      anything that is not a digit is that register when it is at most
      `NUM_REGISTERS`, and out of range otherwise. */
  lemma RegisterSyntax(zeros: nat, n: nat, rest: string)
    requires rest == [] || !InClass(rest[0], Digit)
    ensures var s := "$" + Zeros(zeros) + ToDigits(n, 10) + rest;
      ParseRegister(s) == if n <= NUM_REGISTERS then Ok(n) else Err(RegisterOutOfRange(s))
  {
    var d := Zeros(zeros) + ToDigits(n, 10);
    var s := "$" + Zeros(zeros) + ToDigits(n, 10) + rest;
    assert AllIn(d, Digit);
    assert s[1..] == d + rest;
    RunOfConcat(d, rest, Digit);
    assert MatchRegister(s) == Some(d);
    LeadingZeros(zeros, ToDigits(n, 10), 10);
    DigitsRoundTrip(n, 10);
  }

  /** So `$0` to `$8` are accepted and `$9` and above are not. */
  lemma RegisterBound(n: nat)
    ensures ParseRegister("$" + ToDigits(n, 10)) == if n <= 8 then Ok(n) else Err(RegisterOutOfRange("$" + ToDigits(n, 10)))
  {
    RegisterSyntax(0, n, "");
    assert "$" + Zeros(0) + ToDigits(n, 10) + "" == "$" + ToDigits(n, 10);
  }

  /** Whenever the hexadecimal pattern matches, the decimal pattern matches
      too (it captures the leading `0`), yet the hexadecimal value wins. */
  lemma HexTakesPriority(s: string)
    requires MatchHex(s).Some?
    ensures MatchDecimal(s) == Some("0")
    ensures ParseNumericLiteral(s) == Bounded(s, Value(MatchHex(s).value, 16))
  {
    assert s[..1] == "0";
    RunOfConcat("0", s[1..], Digit);
    assert s == "0" + s[1..];
  }

  /** Apart from the hexadecimal and decimal patterns, no two of the four
      literal patterns match the same argument, so the order of the tests
      only matters between those two. */
  lemma LiteralPatternsOverlap(s: string)
    ensures MatchBinary(s).Some? ==> MatchHex(s).None? && MatchDecimal(s).None? && MatchChar(s).None?
    ensures MatchDecimal(s).Some? ==> MatchBinary(s).None? && MatchChar(s).None?
    ensures MatchChar(s).Some? ==> MatchHex(s).None? && MatchBinary(s).None? && MatchDecimal(s).None?
  {
  }

  /** An argument none of the four literal patterns matches is the value 0,
      not an error. */
  lemma UnmatchedLiteralIsZero(s: string)
    requires MatchHex(s).None? && MatchBinary(s).None? && MatchDecimal(s).None? && MatchChar(s).None?
    ensures ParseNumericLiteral(s) == Ok(0)
  {
  }

  /** The binary pattern needs no priority: when it matches, its value is
      the result. */
  lemma BinaryWhenMatched(s: string)
    requires MatchBinary(s).Some?
    ensures ParseNumericLiteral(s) == Bounded(s, Value(MatchBinary(s).value, 2))
  {
  }

  /** The decimal pattern decides whenever the hexadecimal one does not match. */
  lemma DecimalWhenMatched(s: string)
    requires MatchHex(s).None? && MatchDecimal(s).Some?
    ensures ParseNumericLiteral(s) == Bounded(s, Value(MatchDecimal(s).value, 10))
  {
  }

  /** `0x` or `0X`, hexadecimal digits of either case, then anything that is
      not a hexadecimal digit. */
  lemma HexSyntax(x: char, digits: string, rest: string)
    requires x == 'x' || x == 'X'
    requires |digits| >= 1 && AllIn(digits, HexDigit)
    requires rest == [] || !InClass(rest[0], HexDigit)
    ensures var s := ['0', x] + digits + rest; ParseNumericLiteral(s) == Bounded(s, Value(digits, 16))
  {
    var s := ['0', x] + digits + rest;
    HexMatched(x, digits, rest);
    HexTakesPriority(s);
  }

  lemma HexMatched(x: char, digits: string, rest: string)
    requires x == 'x' || x == 'X'
    requires |digits| >= 1 && AllIn(digits, HexDigit)
    requires rest == [] || !InClass(rest[0], HexDigit)
    ensures MatchHex(['0', x] + digits + rest) == Some(digits)
  {
    var s := ['0', x] + digits + rest;
    assert s[2..] == digits + rest;
    RunOfConcat(digits, rest, HexDigit);
  }

  /** `b` or `B`, binary digits, then anything that is not a binary digit. */
  lemma BinarySyntax(b: char, digits: string, rest: string)
    requires b == 'b' || b == 'B'
    requires |digits| >= 1 && AllIn(digits, BinDigit)
    requires rest == [] || !InClass(rest[0], BinDigit)
    ensures var s := [b] + digits + rest; ParseNumericLiteral(s) == Bounded(s, Value(digits, 2))
  {
    BinaryMatched(b, digits, rest);
    BinaryWhenMatched([b] + digits + rest);
  }

  lemma BinaryMatched(b: char, digits: string, rest: string)
    requires b == 'b' || b == 'B'
    requires |digits| >= 1 && AllIn(digits, BinDigit)
    requires rest == [] || !InClass(rest[0], BinDigit)
    ensures MatchBinary([b] + digits + rest) == Some(digits)
  {
    var s := [b] + digits + rest;
    assert s[1..] == digits + rest;
    RunOfConcat(digits, rest, BinDigit);
  }

  /** Decimal digits that do not start a hexadecimal literal, then anything
      that is not a digit. */
  lemma DecimalSyntax(digits: string, rest: string)
    requires |digits| >= 1 && AllIn(digits, Digit)
    requires digits != "0" || rest == [] || (rest[0] != 'x' && rest[0] != 'X')
    requires rest == [] || !InClass(rest[0], Digit)
    ensures var s := digits + rest; ParseNumericLiteral(s) == Bounded(s, Value(digits, 10))
  {
    var s := digits + rest;
    assert s[0] == digits[0];
    if |digits| >= 2 {
      assert s[1] == digits[1];
    } else if digits[0] != '0' {
      assert s[0] != '0';
    }
    RunOfConcat(digits, rest, Digit);
    DecimalWhenMatched(s);
  }

  /** A quoted `0` or `1` is that bit; any other quoted word character is an
      error. */
  lemma CharSyntax(c: char)
    requires InClass(c, Word)
    ensures ParseNumericLiteral(['\'', c, '\'']) ==
      if c == '0' then Ok(0) else if c == '1' then Ok(1) else Err(NotBinaryDigit(['\'', c, '\'']))
  {
    var s := ['\'', c, '\''];
    assert s[1..2] == [c];
  }

  /** The hexadecimal, binary and decimal spellings of one number, each with
      any number of leading zeros, give that number when it fits in a word. */
  lemma SameValueInEveryBase(n: nat, hexZeros: nat, binZeros: nat, decZeros: nat)
    requires n <= MAX_LITERAL_VALUE
    ensures ParseNumericLiteral("0x" + Zeros(hexZeros) + ToDigits(n, 16)) == Ok(n)
    ensures ParseNumericLiteral("b" + Zeros(binZeros) + ToDigits(n, 2)) == Ok(n)
    ensures ParseNumericLiteral(Zeros(decZeros) + ToDigits(n, 10)) == Ok(n)
  {
    SpellingValues(n, hexZeros, binZeros, decZeros);
  }

  /** The same spellings of a number that does not fit in a word are each
      rejected as oversized. */
  lemma OversizedInEveryBase(n: nat, hexZeros: nat, binZeros: nat, decZeros: nat)
    requires n > MAX_LITERAL_VALUE
    ensures var s := "0x" + Zeros(hexZeros) + ToDigits(n, 16); ParseNumericLiteral(s) == Err(OversizedLiteral(s))
    ensures var s := "b" + Zeros(binZeros) + ToDigits(n, 2); ParseNumericLiteral(s) == Err(OversizedLiteral(s))
    ensures var s := Zeros(decZeros) + ToDigits(n, 10); ParseNumericLiteral(s) == Err(OversizedLiteral(s))
  {
    SpellingValues(n, hexZeros, binZeros, decZeros);
  }

  /** Each spelling of `n` parses to `n`, subject to the word bound. */
  lemma SpellingValues(n: nat, hexZeros: nat, binZeros: nat, decZeros: nat)
    ensures var s := "0x" + Zeros(hexZeros) + ToDigits(n, 16); ParseNumericLiteral(s) == Bounded(s, n)
    ensures var s := "b" + Zeros(binZeros) + ToDigits(n, 2); ParseNumericLiteral(s) == Bounded(s, n)
    ensures var s := Zeros(decZeros) + ToDigits(n, 10); ParseNumericLiteral(s) == Bounded(s, n)
  {
    HexSpelling(n, hexZeros);
    BinarySpelling(n, binZeros);
    DecimalSpelling(n, decZeros);
  }

  lemma HexSpelling(n: nat, zeros: nat)
    ensures var s := "0x" + Zeros(zeros) + ToDigits(n, 16); ParseNumericLiteral(s) == Bounded(s, n)
  {
    var h := Zeros(zeros) + ToDigits(n, 16);
    assert AllIn(h, HexDigit);
    HexSyntax('x', h, "");
    assert "0x" + Zeros(zeros) + ToDigits(n, 16) == ['0', 'x'] + h + "";
    LeadingZeros(zeros, ToDigits(n, 16), 16);
    DigitsRoundTrip(n, 16);
  }

  lemma BinarySpelling(n: nat, zeros: nat)
    ensures var s := "b" + Zeros(zeros) + ToDigits(n, 2); ParseNumericLiteral(s) == Bounded(s, n)
  {
    var b := Zeros(zeros) + ToDigits(n, 2);
    assert AllIn(b, BinDigit);
    BinarySyntax('b', b, "");
    assert "b" + Zeros(zeros) + ToDigits(n, 2) == ['b'] + b + "";
    LeadingZeros(zeros, ToDigits(n, 2), 2);
    DigitsRoundTrip(n, 2);
  }

  lemma DecimalSpelling(n: nat, zeros: nat)
    ensures var s := Zeros(zeros) + ToDigits(n, 10); ParseNumericLiteral(s) == Bounded(s, n)
  {
    var d := Zeros(zeros) + ToDigits(n, 10);
    assert AllIn(d, Digit);
    DecimalSyntax(d, "");
    assert d == d + "";
    LeadingZeros(zeros, ToDigits(n, 10), 10);
    DigitsRoundTrip(n, 10);
  }

  /** Each converter reads back the number it is given in its own base, with
      any number of leading zeros and without a bound. */
  lemma ConverterSpellings(n: nat, hexZeros: nat, binZeros: nat, decZeros: nat)
    ensures ParseHex("0x" + Zeros(hexZeros) + ToDigits(n, 16)) == Ok(n)
    ensures ParseBinary("b" + Zeros(binZeros) + ToDigits(n, 2)) == Ok(n)
    ensures ParseDecimal(Zeros(decZeros) + ToDigits(n, 10)) == Ok(n)
  {
    HexConverterSpelling(n, hexZeros);
    BinaryConverterSpelling(n, binZeros);
    DecimalConverterSpelling(n, decZeros);
  }

  lemma HexConverterSpelling(n: nat, zeros: nat)
    ensures ParseHex("0x" + Zeros(zeros) + ToDigits(n, 16)) == Ok(n)
  {
    var h := Zeros(zeros) + ToDigits(n, 16);
    assert AllIn(h, HexDigit);
    HexMatched('x', h, "");
    assert "0x" + Zeros(zeros) + ToDigits(n, 16) == ['0', 'x'] + h + "";
    LeadingZeros(zeros, ToDigits(n, 16), 16);
    DigitsRoundTrip(n, 16);
  }

  lemma BinaryConverterSpelling(n: nat, zeros: nat)
    ensures ParseBinary("b" + Zeros(zeros) + ToDigits(n, 2)) == Ok(n)
  {
    var b := Zeros(zeros) + ToDigits(n, 2);
    assert AllIn(b, BinDigit);
    BinaryMatched('b', b, "");
    assert "b" + Zeros(zeros) + ToDigits(n, 2) == ['b'] + b + "";
    LeadingZeros(zeros, ToDigits(n, 2), 2);
    DigitsRoundTrip(n, 2);
  }

  lemma DecimalConverterSpelling(n: nat, zeros: nat)
    ensures ParseDecimal(Zeros(zeros) + ToDigits(n, 10)) == Ok(n)
  {
    var d := Zeros(zeros) + ToDigits(n, 10);
    assert AllIn(d, Digit);
    assert d == d + "";
    RunOfConcat(d, "", Digit);
    LeadingZeros(zeros, ToDigits(n, 10), 10);
    DigitsRoundTrip(n, 10);
  }

  /** The three spellings of fifteen used by the source's examples. */
  lemma FifteenThreeWays()
    ensures ParseNumericLiteral("0x000F") == Ok(15)
    ensures ParseNumericLiteral("b1111") == Ok(15)
    ensures ParseNumericLiteral("15") == Ok(15)
  {
    HexFifteen();
    BinaryFifteen();
    DecimalFifteen();
  }

  lemma HexFifteen()
    ensures ParseNumericLiteral("0x000F") == Ok(15)
  {
    assert "0x000F" == ['0', 'x'] + "000F" + "";
    ValueOfHexFifteen();
    HexSyntax('x', "000F", "");
  }

  lemma ValueOfHexFifteen()
    ensures Value("000F", 16) == 15
  {
    assert "000F" == Zeros(3) + "F";
    assert "F"[..0] == "";
    LeadingZeros(3, "F", 16);
  }

  lemma BinaryFifteen()
    ensures ParseNumericLiteral("b1111") == Ok(15)
  {
    assert "b1111" == ['b'] + "1111" + "";
    ValueOfBinaryFifteen();
    BinarySyntax('b', "1111", "");
  }

  lemma ValueOfBinaryFifteen()
    ensures Value("1111", 2) == 15
  {
    assert "1111"[..3] == "111" && "111"[..2] == "11" && "11"[..1] == "1" && "1"[..0] == "";
  }

  lemma DecimalFifteen()
    ensures ParseNumericLiteral("15") == Ok(15)
  {
    assert "15" == "15" + "";
    ValueOfDecimalFifteen();
    DecimalSyntax("15", "");
  }

  lemma ValueOfDecimalFifteen()
    ensures Value("15", 10) == 15
  {
    assert "15"[..1] == "1" && "1"[..0] == "";
  }
}
