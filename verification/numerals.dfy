/** Writing and reading integers as digit strings: Python's `'{:d}'`,
    `'{:x}'` and `'{:08x}'` formats and its `int(s, base)` parser, and the
    bootloader's fixed-width upper-case hexadecimal output. */
module Numerals {
  import opened Wrappers
  import opened Bits
  import opened Bytes
  import opened Text

  /** `b` to the power `k`. */
  function Pow(b: nat, k: nat): (r: nat)
    ensures b >= 1 ==> r >= 1
  {
    if k == 0 then 1 else b * Pow(b, k - 1)
  }

  /** The value of a digit character in any base up to 36, or -1 for a
      character that is no ASCII digit or letter. */
  function DigitValue(c: char): int
  {
    if '0' <= c <= '9' then c as int - '0' as int
    else if 'a' <= c <= 'z' then c as int - 'a' as int + 10
    else if 'A' <= c <= 'Z' then c as int - 'A' as int + 10
    else -1
  }

  predicate IsDigit(c: char, base: nat)
  {
    0 <= DigitValue(c) < base
  }

  /** The character for digit `d` (below 16), lower- or upper-case. */
  function DigitChar(d: nat, upper: bool): (c: char)
    requires d < 16
    ensures DigitValue(c) == d
    ensures d >= 10 ==> (if upper then 'A' <= c <= 'F' else 'a' <= c <= 'f')
    ensures d < 10 ==> '0' <= c <= '9'
  {
    if d < 10 then ('0' as int + d) as char
    else if upper then ('A' as int + d - 10) as char
    else ('a' as int + d - 10) as char
  }

  /** A digit that Python's `'x'` format or the bootloader's `uart_put_hex`
      can produce. */
  predicate CaseDigit(c: char, upper: bool)
  {
    '0' <= c <= '9' || (if upper then 'A' <= c <= 'F' else 'a' <= c <= 'f')
  }

  /** The value of a digit string, most significant digit first. */
  function Value(s: string, base: nat): nat
    requires forall i | 0 <= i < |s| :: IsDigit(s[i], base)
  {
    if |s| == 0 then 0
    else
      var init, last := s[..|s| - 1], s[|s| - 1];
      assert IsDigit(last, base);
      var d: nat := DigitValue(last);
      var v: nat := Value(init, base);
      MulNat(base, v);
      base * v + d
  }

  lemma MulNat(a: nat, b: nat)
    ensures a * b >= 0
  {
  }

  /** The shortest digit string of `n` in base 10 or 16: Python's `'{:d}'`
      and `'{:x}'` of a non-negative number. */
  function Digits(n: nat, base: nat, upper: bool): (s: string)
    requires base == 10 || base == 16
    ensures |s| >= 1
    ensures forall i | 0 <= i < |s| :: IsDigit(s[i], base) && CaseDigit(s[i], upper)
    ensures n > 0 ==> s[0] != '0'
  {
    if n < base then [DigitChar(n, upper)]
    else Digits(n / base, base, upper) + [DigitChar(n % base, upper)]
  }

  lemma {:induction false} ValueOfDigits(n: nat, base: nat, upper: bool)
    requires base == 10 || base == 16
    ensures Value(Digits(n, base, upper), base) == n
  {
    if n >= base {
      var q, d := n / base, n % base;
      ValueOfDigits(q, base, upper);
      AppendDigit(Digits(q, base, upper), DigitChar(d, upper), base);
      assert n == base * q + d;
    }
  }

  /** A number below `base^k` needs at most `k` digits. */
  lemma {:induction false} DigitsLength(n: nat, base: nat, upper: bool, k: nat)
    requires base == 10 || base == 16
    requires k >= 1 && n < Pow(base, k)
    ensures |Digits(n, base, upper)| <= k
  {
    if n >= base {
      var q := n / base;
      if k == 1 {
        assert false;
      }
      if q >= Pow(base, k - 1) {
        assert false;
      }
      DigitsLength(q, base, upper, k - 1);
    }
  }

  /** `k` copies of `c`. */
  function Repeat(c: char, k: nat): (r: string)
    ensures |r| == k && forall i | 0 <= i < k :: r[i] == c
  {
    seq(k, _ => c)
  }

  /** `s` right-aligned in a field of `width` characters filled with `c`. */
  function PadLeft(s: string, c: char, width: nat): (r: string)
    ensures |r| == if |s| < width then width else |s|
    ensures r == Repeat(c, |r| - |s|) + s
  {
    if |s| < width then Repeat(c, width - |s|) + s else Repeat(c, 0) + s
  }

  /** Leading zeros do not change a value. */
  lemma {:induction false} ValueZeroPrefix(k: nat, s: string, base: nat)
    requires base >= 1
    requires forall i | 0 <= i < |s| :: IsDigit(s[i], base)
    ensures forall i | 0 <= i < k + |s| :: IsDigit((Repeat('0', k) + s)[i], base)
    ensures Value(Repeat('0', k) + s, base) == Value(s, base)
    decreases |s|
  {
    var z := Repeat('0', k) + s;
    assert forall i | 0 <= i < k + |s| :: IsDigit(z[i], base) by {
      forall i | 0 <= i < k + |s|
        ensures IsDigit(z[i], base)
      {
        if i >= k {
          assert z[i] == s[i - k];
        }
      }
    }
    if |s| == 0 {
      assert z == Repeat('0', k);
      ZerosValue(k, base);
    } else {
      assert z[..|z| - 1] == Repeat('0', k) + s[..|s| - 1];
      ValueZeroPrefix(k, s[..|s| - 1], base);
    }
  }

  lemma {:induction false} ZerosValue(k: nat, base: nat)
    requires base >= 1
    ensures Value(Repeat('0', k), base) == 0
  {
    if k > 0 {
      assert Repeat('0', k)[..k - 1] == Repeat('0', k - 1);
      ZerosValue(k - 1, base);
    }
  }

  lemma Pow16Is2Pow32()
    ensures Pow(16, 8) == U32_LIMIT
  {
    assert Pow(16, 2) == 0x100;
    assert Pow(16, 4) == 0x1_0000 by { assert Pow(16, 3) == 0x1000; }
    assert Pow(16, 6) == 0x100_0000 by { assert Pow(16, 5) == 0x10_0000; }
    assert Pow(16, 7) == 0x1000_0000;
  }

  /** Eight hexadecimal digits of a 32-bit word, most significant first:
      Python's `'{:08x}'` (lower case) or the digits `uart_put_hex` prints
      (upper case). */
  function Hex8(w: u32, upper: bool): (s: string)
    ensures |s| == 8
    ensures forall i | 0 <= i < 8 :: IsDigit(s[i], 16) && CaseDigit(s[i], upper)
    ensures Value(s, 16) == w
  {
    var d := Digits(w, 16, upper);
    Pow16Is2Pow32();
    DigitsLength(w, 16, upper, 8);
    ValueOfDigits(w, 16, upper);
    ValueZeroPrefix(8 - |d|, d, 16);
    PadLeft(d, '0', 8)
  }

  lemma Hex8HasNoNewline(w: u32)
    ensures '\n' !in Hex8(w, false)
  {
    var s := Hex8(w, false);
    assert forall i | 0 <= i < 8 :: s[i] != '\n';
  }

  /** Eight hexadecimal digits determine the word: `Hex8` is injective. */
  lemma Hex8Injective(v: u32, w: u32, upper: bool)
    requires Hex8(v, upper) == Hex8(w, upper)
    ensures v == w
  {
  }

  /** `uart_put_hex`: `0x` and then, for shifts 28, 24, ..., 0, the nibble
      `(value >> i) & 0xF` as `'0' + nibble` below ten and `'A' + nibble - 10`
      otherwise.  The text is `0x` and the upper-case eight-digit form of the
      value. */
  method PutHex(value: u32) returns (out: string)
    ensures out == "0x" + Hex8(value, true)
  {
    var digits := "";
    var i := 28;
    U32Limit();
    SmallDivMod(value, Pow2(32));
    while i >= 0
      invariant i == 28 - 4 * |digits| && |digits| <= 8
      invariant PutHexProgress(value, digits)
    {
      var nibble := Shr(value, i) % 0x10;
      var c: char;
      if nibble < 10 {
        c := ('0' as int + nibble) as char;
      } else {
        c := ('A' as int + nibble - 10) as char;
      }
      PutHexStep(value, digits, c);
      digits := digits + [c];
      i := i - 4;
    }
    assert Pow2(0) == 1;
    Hex8Unique(digits, value, true);
    out := "0x" + digits;
  }

  /** The digits printed so far: upper-case, one per nibble from the top,
      and together the value of the word shifted right past the nibbles not
      yet printed. */
  predicate PutHexProgress(value: u32, digits: string)
  {
    && |digits| <= 8
    && (forall k | 0 <= k < |digits| :: IsDigit(digits[k], 16) && CaseDigit(digits[k], true))
    && Value(digits, 16) == Shr(value, 32 - 4 * |digits|)
  }

  lemma PutHexStep(value: u32, digits: string, c: char)
    requires |digits| < 8 && PutHexProgress(value, digits)
    requires c == DigitChar(Shr(value, 28 - 4 * |digits|) % 0x10, true)
    ensures PutHexProgress(value, digits + [c])
  {
    var i := 28 - 4 * |digits|;
    NibbleStep(value, i);
    AppendDigit(digits, c, 16);
  }

  lemma AppendDigit(s: string, c: char, base: nat)
    requires forall i | 0 <= i < |s| :: IsDigit(s[i], base)
    requires IsDigit(c, base)
    ensures forall i | 0 <= i < |s| + 1 :: IsDigit((s + [c])[i], base)
    ensures Value(s + [c], base) == base * Value(s, base) + DigitValue(c)
  {
    assert (s + [c])[..|s|] == s;
  }

  /** `value >> i` is sixteen times `value >> (i + 4)` plus the nibble at `i`. */
  lemma NibbleStep(value: nat, i: nat)
    ensures Shr(value, i) == 16 * Shr(value, i + 4) + Shr(value, i) % 16
  {
    Pow2Add(i, 4);
    Pow2Values();
    DivModNested(value, Pow2(i), 16);
    DivNat(value, Pow2(i));
  }

  /** Eight digits of the right case with the value of `w` are `Hex8(w)`. */
  lemma Hex8Unique(s: string, w: u32, upper: bool)
    requires |s| == 8
    requires forall i | 0 <= i < 8 :: IsDigit(s[i], 16) && CaseDigit(s[i], upper)
    requires Value(s, 16) == w
    ensures s == Hex8(w, upper)
  {
    FixedDigitsUnique(s, Hex8(w, upper), upper);
  }

  /** Two digit strings of one length, case and value are equal. */
  lemma {:induction false} FixedDigitsUnique(s: string, t: string, upper: bool)
    requires |s| == |t|
    requires forall i | 0 <= i < |s| :: IsDigit(s[i], 16) && CaseDigit(s[i], upper)
    requires forall i | 0 <= i < |t| :: IsDigit(t[i], 16) && CaseDigit(t[i], upper)
    requires Value(s, 16) == Value(t, 16)
    ensures s == t
  {
    if |s| > 0 {
      var n := |s| - 1;
      DivUnique(Value(s, 16), 16, Value(s[..n], 16), DigitValue(s[n]));
      DivUnique(Value(t, 16), 16, Value(t[..n], 16), DigitValue(t[n]));
      FixedDigitsUnique(s[..n], t[..n], upper);
      CaseDigitUnique(s[n], t[n], upper);
      assert s == s[..n] + [s[n]] && t == t[..n] + [t[n]];
    }
  }

  lemma CaseDigitUnique(c: char, d: char, upper: bool)
    requires CaseDigit(c, upper) && CaseDigit(d, upper)
    requires DigitValue(c) == DigitValue(d)
    ensures c == d
  {
  }

  /** Python's `'{:d}'` of any integer. */
  function Decimal(n: int): (s: string)
    ensures |s| >= 1
  {
    if n < 0 then "-" + Digits(-n, 10, false) else Digits(n, 10, false)
  }

  /** Python's `'{:0<w>x}'` of any integer: the sign, then the lower-case
      digits of the magnitude zero-filled so that sign and digits together
      take at least `width` characters. */
  function SignedHex(n: int, width: nat): (s: string)
  {
    if n < 0 then "-" + PadLeft(Digits(-n, 16, false), '0', if width > 0 then width - 1 else 0)
    else PadLeft(Digits(n, 16, false), '0', width)
  }

  // ---------------------------------------------------------------------
  // Python's int(s, base)
  // ---------------------------------------------------------------------

  /** Digits of `base`, with single underscores allowed between digits. */
  predicate IsDigitRun(s: string, base: nat)
  {
    |s| > 0 && IsDigit(s[0], base) && IsDigit(s[|s| - 1], base)
    && forall i | 0 <= i < |s| :: IsDigit(s[i], base) || (s[i] == '_' && i + 1 < |s| && IsDigit(s[i + 1], base))
  }

  /** `s` with its underscores dropped. */
  function DropUnderscores(s: string): (r: string)
    ensures |r| <= |s|
  {
    if |s| == 0 then []
    else if s[|s| - 1] == '_' then DropUnderscores(s[..|s| - 1])
    else DropUnderscores(s[..|s| - 1]) + [s[|s| - 1]]
  }

  /** Only digits are left once the underscores of a run are dropped. */
  lemma {:induction false} DropUnderscoresDigits(s: string, base: nat)
    requires forall i | 0 <= i < |s| :: IsDigit(s[i], base) || s[i] == '_'
    ensures forall i | 0 <= i < |DropUnderscores(s)| :: IsDigit(DropUnderscores(s)[i], base)
  {
    if |s| > 0 {
      DropUnderscoresDigits(s[..|s| - 1], base);
    }
  }

  /** Sign and digits of an integer literal after `strip()`; a `0x` or `0X`
      prefix, optionally followed by one underscore, is allowed in base 16. */
  function SplitSign(t: string): (r: (bool, string))
  {
    if |t| > 0 && (t[0] == '-' || t[0] == '+') then (t[0] == '-', t[1..]) else (false, t)
  }

  function DropHexPrefix(body: string, base: nat): string
  {
    if base == 16 && |body| >= 2 && body[0] == '0' && (body[1] == 'x' || body[1] == 'X') then
      var rest := body[2..];
      if |rest| > 0 && rest[0] == '_' then rest[1..] else rest
    else body
  }

  /** The whitespace `int()` skips on either side of a numeral: tab, line
      feed, vertical tab, form feed, carriage return and space, and every
      non-ASCII character `str.isspace()` accepts.  The ASCII separators
      U+001C..U+001F are whitespace to `str.isspace()` but not to `int()`. */
  predicate IntSpace(c: char)
  {
    IsSpace(c) && !('\U{1C}' <= c <= '\U{1F}')
  }

  /** `s` without the leading whitespace `int()` skips. */
  function IntStripStart(s: string): (r: string)
    ensures |r| <= |s| && r == s[|s| - |r|..]
    ensures |r| > 0 ==> !IntSpace(r[0])
    ensures forall i | 0 <= i < |s| - |r| :: IntSpace(s[i])
    decreases |s|
  {
    if |s| > 0 && IntSpace(s[0]) then IntStripStart(s[1..]) else s
  }

  /** `s` without the trailing whitespace `int()` skips. */
  function IntStripEnd(s: string): (r: string)
    ensures |r| <= |s| && r == s[..|r|]
    ensures |r| > 0 ==> !IntSpace(r[|r| - 1])
    ensures forall i | |r| <= i < |s| :: IntSpace(s[i])
    decreases |s|
  {
    if |s| > 0 && IntSpace(s[|s| - 1]) then IntStripEnd(s[..|s| - 1]) else s
  }

  /** `r` is the slice of `s` at `i` with only `int()` whitespace on either
      side. */
  predicate IntTrimmedAt(s: string, r: string, i: int)
  {
    OccursAt(s, r, i)
    && (forall k | 0 <= k < i :: IntSpace(s[k]))
    && (forall k | i + |r| <= k < |s| :: IntSpace(s[k]))
  }

  /** The numeral `int()` looks at: the longest slice of `s` that neither
      starts nor ends with its whitespace, with only that whitespace cut on
      either side. */
  function IntStrip(s: string): (r: string)
    ensures exists i :: IntTrimmedAt(s, r, i)
    ensures |r| > 0 ==> !IntSpace(r[0]) && !IntSpace(r[|r| - 1])
  {
    var t := IntStripStart(s);
    var r := IntStripEnd(t);
    var i := |s| - |t|;
    assert r == s[i..i + |r|];
    assert forall k | i + |r| <= k < |s| :: IntSpace(s[k]) by {
      forall k | i + |r| <= k < |s|
        ensures IntSpace(s[k])
      {
        assert s[k] == t[k - i];
      }
    }
    assert IntTrimmedAt(s, r, i);
    assert |r| > 0 ==> r[0] == t[0];
    r
  }

  /** CPython's default cap on the digits of a numeral in a base that is
      not a power of two (`sys.int_info.default_max_str_digits`); leading
      zeros count, underscores do not. */
  const MAX_STR_DIGITS: nat := 4300

  /** `int(s, base)` for base 10 and 16: `None` where Python raises
      `ValueError`.  Base 16 is a power of two and has no digit cap. */
  function ParseInt(s: string, base: nat): (r: Option<int>)
    requires base == 10 || base == 16
    ensures var run := DropHexPrefix(SplitSign(IntStrip(s)).1, base);
      r.Some? <==> IsDigitRun(run, base) && (base == 10 ==> |DropUnderscores(run)| <= MAX_STR_DIGITS)
  {
    var (negative, body) := SplitSign(IntStrip(s));
    ReadNumeral(negative, DropHexPrefix(body, base), base)
  }

  /** The signed value of a digit run, or `None` when `run` is no run of
      digits or has more digits than `int()` reads in base 10. */
  function ReadNumeral(negative: bool, run: string, base: nat): Option<int>
    requires base == 10 || base == 16
  {
    if !IsDigitRun(run, base) then None
    else
      var digits := DropUnderscores(run);
      if base == 10 && |digits| > MAX_STR_DIGITS then None
      else
        DropUnderscoresDigits(run, base);
        var v: int := Value(digits, base);
        Some(if negative then -v else v)
  }

  /** A string whose first and last characters are no whitespace to `int()`
      is its own numeral. */
  lemma IntStripUnchanged(s: string)
    requires |s| > 0 && !IntSpace(s[0]) && !IntSpace(s[|s| - 1])
    ensures IntStrip(s) == s
  {
    assert IntStripStart(s) == s;
    assert IntStripEnd(s) == s;
  }

  /** `str.strip()` removes a leading U+001C, but `int()` does not skip it:
      `int('\x1c5')` fails where `int('\x1c5'.strip())` is 5. */
  lemma SeparatorNotSkipped(s: string)
    requires s == ['\U{1C}', '5']
    ensures IsSpace(s[0]) && Strip(s) == "5"
    ensures ParseInt(s, 10) == None
  {
    SeparatorStripped(s);
    SeparatorRefused(s);
  }

  lemma SeparatorStripped(s: string)
    requires s == ['\U{1C}', '5']
    ensures Strip(s) == "5"
  {
    assert StripStart(s) == "5";
    assert StripEnd("5") == "5";
  }

  lemma SeparatorRefused(s: string)
    requires s == ['\U{1C}', '5']
    ensures ParseInt(s, 10) == None
  {
    IntStripUnchanged(s);
    assert SplitSign(s) == (false, s);
    assert !IsDigitRun(s, 10);
  }

  /** A numeral of more than 4300 decimal digits is refused, however small
      its value. */
  lemma LongNumeralRefused(d: string)
    requires |d| > MAX_STR_DIGITS && forall i | 0 <= i < |d| :: IsDigit(d[i], 10)
    ensures ParseInt(d, 10) == None
  {
    IntStripUnchanged(d);
    assert SplitSign(d) == (false, d);
    DigitsHaveNoUnderscore(d, 10);
    assert IsDigitRun(d, 10);
  }

  lemma {:induction false} DigitsHaveNoUnderscore(s: string, base: nat)
    requires forall i | 0 <= i < |s| :: IsDigit(s[i], base)
    ensures DropUnderscores(s) == s
  {
    if |s| > 0 {
      DigitsHaveNoUnderscore(s[..|s| - 1], base);
      assert s == s[..|s| - 1] + [s[|s| - 1]];
    }
  }

  /** How many digits `str(n)` writes, the sign aside. */
  function DecimalDigitCount(n: int): nat
  {
    |Digits(if n < 0 then -n else n, 10, false)|
  }

  /** `int(str(n))` is `n` exactly when `str(n)` has at most 4300 digits;
      a longer numeral is refused. */
  lemma ParseDecimal(n: int)
    ensures ParseInt(Decimal(n), 10) == if DecimalDigitCount(n) <= MAX_STR_DIGITS then Some(n) else None
  {
    var m: nat := if n < 0 then -n else n;
    var d := Digits(m, 10, false);
    DecimalClean(n);
    ValueOfDigits(m, 10, false);
    ParseClean(Decimal(n), n < 0, d, 10);
  }

  /** `str(n)` is a sign and bare decimal digits. */
  lemma DecimalClean(n: int)
    ensures var d := Digits(if n < 0 then -n else n, 10, false);
      && IntStrip(Decimal(n)) == Decimal(n) && SplitSign(Decimal(n)) == (n < 0, d)
      && DropHexPrefix(d, 10) == d && |d| > 0
      && (forall i | 0 <= i < |d| :: IsDigit(d[i], 10)) && DropUnderscores(d) == d
  {
    var m: nat := if n < 0 then -n else n;
    var s := Decimal(n);
    var d := Digits(m, 10, false);
    IntStripUnchanged(s);
    assert SplitSign(s) == (n < 0, d);
    DigitsHaveNoUnderscore(d, 10);
  }

  /** A literal with nothing to strip, no prefix and no underscores is read
      as its sign and its digits' value, unless it has too many decimal
      digits. */
  lemma ParseClean(s: string, negative: bool, d: string, base: nat)
    requires base == 10 || base == 16
    requires IntStrip(s) == s && SplitSign(s) == (negative, d) && DropHexPrefix(d, base) == d
    requires |d| > 0 && (forall i | 0 <= i < |d| :: IsDigit(d[i], base)) && DropUnderscores(d) == d
    ensures ParseInt(s, base) ==
      if base == 10 && |d| > MAX_STR_DIGITS then None
      else Some(if negative then -(Value(d, base) as int) else Value(d, base))
  {
    assert ParseInt(s, base) == ReadNumeral(negative, d, base);
    ReadClean(negative, d, base);
  }

  /** Bare digits are read as their signed value, unless there are too many
      of them in base 10. */
  lemma ReadClean(negative: bool, d: string, base: nat)
    requires base == 10 || base == 16
    requires |d| > 0 && (forall i | 0 <= i < |d| :: IsDigit(d[i], base)) && DropUnderscores(d) == d
    ensures ReadNumeral(negative, d, base) ==
      if base == 10 && |d| > MAX_STR_DIGITS then None
      else Some(if negative then -(Value(d, base) as int) else Value(d, base))
  {
    assert IsDigitRun(d, base);
  }

  /** `int('{:08x}'.format(w), 16)` is `w`. */
  lemma ParseHex8(w: u32)
    ensures ParseInt(Hex8(w, false), 16) == Some(w)
  {
    var s := Hex8(w, false);
    IntStripUnchanged(s);
    assert SplitSign(s) == (false, s);
    assert DropHexPrefix(s, 16) == s by {
      if s[0] == '0' {
        assert s[1] != 'x' && s[1] != 'X';
      }
    }
    DigitsHaveNoUnderscore(s, 16);
  }
}
