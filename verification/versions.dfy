/** The `X.Y.Z` version argument of the host tools.  Both
    tools/upload_tool.py and tools/add_bootloader_header.py split the text at
    every '.', convert every piece with `int()` (any failure is an error) and
    then insist on exactly three pieces. */
module Versions {
  import opened Wrappers
  import opened Text
  import opened Numerals
  import opened Image

  /** The version a command-line argument names, or `None` where the tools
      report an invalid version format: there are not exactly three pieces,
      or `int()` rejects one of them.  The tools convert every piece before
      counting them, which makes no difference to the outcome. */
  function ParseVersion(s: string): (r: Option<Version>)
  {
    var parts := Split(s, '.');
    if |parts| != 3 then None
    else
      match (ParseInt(parts[0], 10), ParseInt(parts[1], 10), ParseInt(parts[2], 10))
      case (Some(major), Some(minor), Some(patch)) => Some(Version(major, minor, patch))
      case _ => None
  }

  /** How a version is written on the command line: `'{}.{}.{}'`. */
  function VersionText(v: Version): string
  {
    Join([Decimal(v.major), Decimal(v.minor), Decimal(v.patch)], '.')
  }

  lemma DecimalHasNoDot(n: int)
    ensures '.' !in Decimal(n)
  {
    var d := Digits(if n < 0 then -n else n, 10, false);
    assert forall i | 0 <= i < |d| :: IsDigit(d[i], 10);
    if n < 0 {
      assert Decimal(n) == ['-'] + d;
    }
    assert forall i | 0 <= i < |Decimal(n)| :: Decimal(n)[i] != '.';
  }

  /** No part of `v` is written with more digits than `int()` reads. */
  predicate Readable(v: Version)
  {
    && DecimalDigitCount(v.major) <= MAX_STR_DIGITS
    && DecimalDigitCount(v.minor) <= MAX_STR_DIGITS
    && DecimalDigitCount(v.patch) <= MAX_STR_DIGITS
  }

  /** Every version, written out, is read back as itself, whatever the signs
      of its parts, as long as no part has more than 4300 digits; otherwise
      the text is an invalid version. */
  lemma ParseVersionText(v: Version)
    ensures ParseVersion(VersionText(v)) == if Readable(v) then Some(v) else None
  {
    VersionTextSplits(v);
    ParseVersionParts(VersionText(v), v);
  }

  /** The written version splits at its two dots into the three numbers. */
  lemma VersionTextSplits(v: Version)
    ensures Split(VersionText(v), '.') == [Decimal(v.major), Decimal(v.minor), Decimal(v.patch)]
  {
    var parts := [Decimal(v.major), Decimal(v.minor), Decimal(v.patch)];
    DecimalHasNoDot(v.major);
    DecimalHasNoDot(v.minor);
    DecimalHasNoDot(v.patch);
    assert forall p | p in parts :: '.' !in p;
    SplitJoin(parts, '.');
  }

  /** Text that splits into the three decimal numbers reads as that version,
      unless one of them is too long for `int()`. */
  lemma ParseVersionParts(s: string, v: Version)
    requires Split(s, '.') == [Decimal(v.major), Decimal(v.minor), Decimal(v.patch)]
    ensures ParseVersion(s) == if Readable(v) then Some(v) else None
  {
    ParseDecimal(v.major);
    ParseDecimal(v.minor);
    ParseDecimal(v.patch);
  }
}
