/** The string and integer built-ins of Python 2 that the assembler relies on,
    on byte strings with neither the LOCALE nor the UNICODE flag: the
    character classes `\s`, `\w`, `\d`, `[\da-fA-F]` and `[01]`, greedy
    prefix runs, `str.strip`, `str.split`, `str.lower`, `int(s, base)`,
    `bin(n)[2:]` and `str.zfill`. */
module Text {

  /** The character classes used by the assembler's regular expressions. */
  datatype CharClass = Space | Word | Digit | HexDigit | BinDigit

  predicate InClass(c: char, k: CharClass) {
    match k
    case Space => c == ' ' || '\t' <= c <= '\r'
    case Word => 'a' <= c <= 'z' || 'A' <= c <= 'Z' || '0' <= c <= '9' || c == '_'
    case Digit => '0' <= c <= '9'
    case HexDigit => '0' <= c <= '9' || 'a' <= c <= 'f' || 'A' <= c <= 'F'
    case BinDigit => c == '0' || c == '1'
  }

  predicate AllIn(s: string, k: CharClass) {
    forall i | 0 <= i < |s| :: InClass(s[i], k)
  }

  /** The longest prefix of `s` made of characters of class `k`: what a greedy
      repetition of `k` matches at the start of `s`. */
  function Run(s: string, k: CharClass): (r: string)
    ensures r <= s && AllIn(r, k)
    ensures |r| < |s| ==> !InClass(s[|r|], k)
  {
    if s == [] || !InClass(s[0], k) then "" else [s[0]] + Run(s[1..], k)
  }

  /** `g` is what a greedy `k+` captures in `s` at position `i`. */
  predicate GreedyAt(s: string, i: nat, g: string, k: CharClass) {
    |g| >= 1 && i + |g| <= |s| && s[i..i + |g|] == g && AllIn(g, k)
    && (i + |g| == |s| || !InClass(s[i + |g|], k))
  }

  /** A run is determined by where the class ends. */
  lemma {:induction false} RunOfConcat(a: string, b: string, k: CharClass)
    requires AllIn(a, k)
    requires b == [] || !InClass(b[0], k)
    ensures Run(a + b, k) == a
  {
    if a != [] {
      assert (a + b)[1..] == a[1..] + b;
      RunOfConcat(a[1..], b, k);
    }
  }

  /** Appending text after the first character outside the class leaves the
      run unchanged. */
  lemma RunOfPrefix(a: string, b: string, k: CharClass)
    requires |Run(a, k)| < |a|
    ensures Run(a + b, k) == Run(a, k)
  {
    var r := Run(a, k);
    assert a == r + a[|r|..];
    assert a + b == r + (a[|r|..] + b);
    RunOfConcat(r, a[|r|..] + b, k);
  }

  /** `s` without its trailing whitespace. */
  function StripEnd(s: string): (r: string)
    ensures r <= s && AllIn(s[|r|..], Space)
    ensures r == [] || !InClass(r[|r| - 1], Space)
  {
    if s == [] || !InClass(s[|s| - 1], Space) then s
    else
      var t := s[..|s| - 1];
      var r := StripEnd(t);
      assert s[|r|..] == t[|r|..] + [s[|s| - 1]];
      r
  }

  /** Python's `str.strip()`: the middle piece of `s` between its leading and
      its trailing whitespace. */
  function Strip(s: string): (r: string)
    ensures var i := |Run(s, Space)|;
      i + |r| <= |s| && r == s[i..i + |r|] && AllIn(s[..i], Space) && AllIn(s[i + |r|..], Space)
    ensures r == [] || (!InClass(r[0], Space) && !InClass(r[|r| - 1], Space))
  {
    var i := |Run(s, Space)|;
    var r := StripEnd(s[i..]);
    assert s[i..][|r|..] == s[i + |r|..];
    r
  }

  /** Trailing whitespace after a non-space character is what `StripEnd`
      removes. */
  lemma {:induction false} StripEndOf(s: string, post: string)
    requires s != [] && !InClass(s[|s| - 1], Space)
    requires AllIn(post, Space)
    ensures StripEnd(s + post) == s
  {
    if post == [] {
      assert s + post == s;
    } else {
      var t := s + post;
      assert t[..|t| - 1] == s + post[..|post| - 1];
      StripEndOf(s, post[..|post| - 1]);
    }
  }

  /** `strip` removes exactly the surrounding whitespace of a piece whose
      first and last characters are not whitespace. */
  lemma StripOf(pre: string, s: string, post: string)
    requires AllIn(pre, Space) && AllIn(post, Space)
    requires s != [] && !InClass(s[0], Space) && !InClass(s[|s| - 1], Space)
    ensures Strip(pre + s + post) == s
  {
    var t := pre + s + post;
    assert t == pre + (s + post);
    RunOfConcat(pre, s + post, Space);
    assert t[|pre|..] == s + post;
    StripEndOf(s, post);
  }

  /** The pieces joined back with the separator between them. */
  function Join(pieces: seq<string>, sep: char): string
    requires |pieces| >= 1
  {
    if |pieces| == 1 then pieces[0] else pieces[0] + [sep] + Join(pieces[1..], sep)
  }

  /** Python's `s.split(sep)` for a one-character separator: the pieces
      between separators, one more piece than there are separators, so the
      empty string splits into one empty piece. */
  function Split(s: string, sep: char): (r: seq<string>)
    ensures |r| >= 1
    ensures forall i | 0 <= i < |r| :: sep !in r[i]
  {
    if s == [] then [""]
    else
      var rest := Split(s[1..], sep);
      if s[0] == sep then [""] + rest
      else
        var r := [[s[0]] + rest[0]] + rest[1..];
        assert r[1..] == rest[1..];
        r
  }

  /** Joining the pieces of a split gives back the string. */
  lemma {:induction false} JoinSplit(s: string, sep: char)
    ensures Join(Split(s, sep), sep) == s
  {
    if s != [] {
      var rest := Split(s[1..], sep);
      JoinSplit(s[1..], sep);
      if s[0] == sep {
        assert Split(s, sep) == [""] + rest;
        assert ([""] + rest)[1..] == rest;
      } else {
        var r := [[s[0]] + rest[0]] + rest[1..];
        assert Split(s, sep) == r;
        if |rest| == 1 {
          assert Join(rest, sep) == rest[0];
        } else {
          assert r[1..] == rest[1..];
          assert Join(rest, sep) == rest[0] + [sep] + Join(rest[1..], sep);
        }
        assert [s[0]] + s[1..] == s;
      }
    }
  }

  /** Splitting at a separator splits the two sides independently. */
  lemma {:induction false} SplitConcat(a: string, b: string, sep: char)
    ensures Split(a + [sep] + b, sep) == Split(a, sep) + Split(b, sep)
  {
    if a == [] {
      assert a + [sep] + b == [sep] + b;
      assert ([sep] + b)[1..] == b;
    } else {
      assert (a + [sep] + b)[1..] == a[1..] + [sep] + b;
      SplitConcat(a[1..], b, sep);
    }
  }

  /** Splitting undoes joining pieces that hold no separator. */
  lemma {:induction false} SplitJoin(pieces: seq<string>, sep: char)
    requires |pieces| >= 1
    requires forall i | 0 <= i < |pieces| :: sep !in pieces[i]
    ensures Split(Join(pieces, sep), sep) == pieces
  {
    SplitWithout(pieces[0], sep);
    if |pieces| > 1 {
      SplitJoin(pieces[1..], sep);
      SplitConcat(pieces[0], Join(pieces[1..], sep), sep);
    }
  }

  lemma {:induction false} SplitWithout(p: string, sep: char)
    requires sep !in p
    ensures Split(p, sep) == [p]
  {
    if p != [] {
      assert p[1..] == p[1..];
      assert sep !in p[1..] by {
        forall c | c in p[1..] ensures c != sep { assert c in p; }
      }
      SplitWithout(p[1..], sep);
      assert [p[0]] + p[1..] == p;
    }
  }

  function LowerChar(c: char): char {
    if 'A' <= c <= 'Z' then (c as int + 32) as char else c
  }

  /** Python's `str.lower()` on a byte string: only `A`..`Z` change. */
  function Lower(s: string): (r: string)
    ensures |r| == |s|
    ensures forall i | 0 <= i < |s| :: r[i] == LowerChar(s[i])
  {
    seq(|s|, i requires 0 <= i < |s| => LowerChar(s[i]))
  }

  /** Lower-casing keeps a word a word, and lower-casing twice is
      lower-casing once. */
  lemma LowerWord(s: string)
    requires AllIn(s, Word)
    ensures AllIn(Lower(s), Word)
    ensures Lower(Lower(s)) == Lower(s)
  {
  }

  /** The value of one hexadecimal digit, either case. */
  function DigitValue(c: char): nat {
    if '0' <= c <= '9' then c as int - '0' as int
    else if 'a' <= c <= 'f' then c as int - 'a' as int + 10
    else if 'A' <= c <= 'F' then c as int - 'A' as int + 10
    else 0
  }

  /** Python's `int(s, base)` on a string of digits of that base, read most
      significant digit first. */
  function Value(s: string, base: nat): nat {
    if s == [] then 0 else Value(s[..|s| - 1], base) * base + DigitValue(s[|s| - 1])
  }

  function DigitChar(d: nat): (c: char)
    requires d < 16
    ensures InClass(c, HexDigit) && DigitValue(c) == d
    ensures d < 10 ==> InClass(c, Digit)
    ensures d < 2 ==> InClass(c, BinDigit)
  {
    if d < 10 then ('0' as int + d) as char else ('a' as int + d - 10) as char
  }

  lemma DivMod(n: nat, base: nat)
    requires 2 <= base <= n
    ensures 1 <= n / base < n && n % base < base
    ensures (n / base) * base + n % base == n
  {
  }

  /** The digits of `n` in `base`, most significant first, lower case, with no
      leading zero. */
  function ToDigits(n: nat, base: nat): (r: string)
    requires 2 <= base <= 16
    ensures |r| >= 1
    ensures forall i | 0 <= i < |r| :: DigitValue(r[i]) < base && InClass(r[i], HexDigit)
    ensures base <= 10 ==> AllIn(r, Digit)
    ensures base == 2 ==> AllIn(r, BinDigit)
    ensures n == 0 <==> r == "0"
    ensures n > 0 ==> r[0] != '0'
    decreases n
  {
    if n < base then [DigitChar(n)]
    else
      DivMod(n, base);
      ToDigits(n / base, base) + [DigitChar(n % base)]
  }

  /** `ToDigits` is the inverse of `Value`. */
  lemma {:induction false} DigitsRoundTrip(n: nat, base: nat)
    requires 2 <= base <= 16
    ensures Value(ToDigits(n, base), base) == n
  {
    if n >= base {
      DivMod(n, base);
      var high := ToDigits(n / base, base);
      var low := DigitChar(n % base);
      var r := high + [low];
      assert ToDigits(n, base) == r;
      assert r[..|r| - 1] == high;
      DigitsRoundTrip(n / base, base);
      assert Value(r, base) == (n / base) * base + n % base;
    }
  }

  /** Python's `bin(n)[2:]`; `bin(0)` is `"0b0"`. */
  function ToBin(n: nat): (r: string)
    ensures |r| >= 1 && AllIn(r, BinDigit) && Value(r, 2) == n
  {
    DigitsRoundTrip(n, 2);
    ToDigits(n, 2)
  }

  function Pow2(k: nat): (p: nat)
    ensures p >= 1
  {
    if k == 0 then 1 else 2 * Pow2(k - 1)
  }

  /** `bin(n)[2:]` fits in `k >= 1` characters exactly when `n < 2^k`. */
  lemma {:induction false} BinLength(n: nat, k: nat)
    requires k >= 1
    ensures |ToBin(n)| <= k <==> n < Pow2(k)
  {
    if n >= 2 {
      assert ToBin(n) == ToBin(n / 2) + [DigitChar(n % 2)];
      if k >= 2 {
        BinLength(n / 2, k - 1);
      }
    } else {
      assert Pow2(k) >= 2;
    }
  }

  function Zeros(k: nat): (z: string)
    ensures |z| == k && forall i | 0 <= i < k :: z[i] == '0'
  {
    seq(k, _ => '0')
  }

  /** Python's `s.zfill(w)` for a string without a sign: `s` left-padded with
      zeros to width `w`, never shortened. */
  function ZFill(s: string, w: nat): (r: string)
    ensures |r| == if |s| >= w then |s| else w
    ensures r == Zeros(|r| - |s|) + s
  {
    if |s| >= w then
      assert Zeros(0) + s == s;
      s
    else Zeros(w - |s|) + s
  }

  lemma {:induction false} ZerosValue(k: nat, base: nat)
    ensures Value(Zeros(k), base) == 0
  {
    if k > 0 {
      assert Zeros(k)[..k - 1] == Zeros(k - 1);
      ZerosValue(k - 1, base);
    }
  }

  /** Leading zeros do not change the value of a digit string. */
  lemma {:induction false} LeadingZeros(k: nat, s: string, base: nat)
    ensures Value(Zeros(k) + s, base) == Value(s, base)
  {
    if s == [] {
      assert Zeros(k) + s == Zeros(k);
      ZerosValue(k, base);
    } else {
      var z := Zeros(k) + s;
      assert z[..|z| - 1] == Zeros(k) + s[..|s| - 1];
      LeadingZeros(k, s[..|s| - 1], base);
    }
  }

  /** Zero-filling keeps the value of a digit string and keeps it binary. */
  lemma ZFillValue(s: string, w: nat, base: nat)
    ensures Value(ZFill(s, w), base) == Value(s, base)
    ensures AllIn(s, BinDigit) ==> AllIn(ZFill(s, w), BinDigit)
  {
    if |s| < w {
      LeadingZeros(w - |s|, s, base);
    }
    var r := ZFill(s, w);
    var z := Zeros(|r| - |s|);
    if AllIn(s, BinDigit) {
      forall i | 0 <= i < |r| ensures InClass(r[i], BinDigit) {
        if i < |z| {
          assert r[i] == z[i];
        } else {
          assert r[i] == s[i - |z|];
        }
      }
    }
  }
}
