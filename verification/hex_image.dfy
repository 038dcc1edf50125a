/** The word-per-line hex image read by Verilog's `$readmemh`, as written by
    sim/bin2hex.py and by `convert_elf_to_hex` in run_compliance_tests.py:
    the bytes zero-padded to whole words, each little-endian word as eight
    lower-case hex digits and a newline. */
module HexImage {
  import opened Bytes
  import opened Numerals

  /** The lines `'{:08x}\n'` of the words `ws`, in order. */
  function HexText(ws: seq<u32>): (text: string)
  {
    if |ws| == 0 then [] else HexText(ws[..|ws| - 1]) + Hex8(ws[|ws| - 1], false) + "\n"
  }

  /** The words of `data` once zero-padded to a whole number of words. */
  function WordsOf(data: seq<byte>): (ws: seq<u32>)
    ensures |ws| == (|data| + 3) / 4
  {
    Words(PadToWord(data))
  }

  /** The hex image of a binary. */
  function HexFile(data: seq<byte>): string
  {
    HexText(WordsOf(data))
  }

  /** Where each word sits in the text: line `i` takes characters `9i` to
      `9i + 8`, eight digits of word `i` and a newline. */
  lemma {:induction false} HexTextLayout(ws: seq<u32>)
    ensures |HexText(ws)| == 9 * |ws|
    ensures forall i | 0 <= i < |ws| ::
      HexText(ws)[9 * i .. 9 * i + 8] == Hex8(ws[i], false) && HexText(ws)[9 * i + 8] == '\n'
  {
    if |ws| > 0 {
      var init := ws[..|ws| - 1];
      HexTextLayout(init);
      forall i | 0 <= i < |ws|
        ensures HexText(ws)[9 * i .. 9 * i + 8] == Hex8(ws[i], false) && HexText(ws)[9 * i + 8] == '\n'
      {
        LineOfAppended(HexText(init), Hex8(ws[|ws| - 1], false), i, |init|);
      }
    }
  }

  /** Line `i` of a text of `n` lines with one more line appended. */
  lemma LineOfAppended(t: string, digits: string, i: nat, n: nat)
    requires |t| == 9 * n && |digits| == 8 && i <= n
    ensures var u := t + digits + "\n";
      && (i < n ==> u[9 * i .. 9 * i + 8] == t[9 * i .. 9 * i + 8] && u[9 * i + 8] == t[9 * i + 8])
      && (i == n ==> u[9 * i .. 9 * i + 8] == digits && u[9 * i + 8] == '\n')
  {
  }

  /** The text determines the words. */
  lemma HexTextInjective(a: seq<u32>, b: seq<u32>)
    requires HexText(a) == HexText(b)
    ensures a == b
  {
    HexTextLayout(a);
    HexTextLayout(b);
    forall i | 0 <= i < |a|
      ensures a[i] == b[i]
    {
      Hex8Injective(a[i], b[i], false);
    }
  }

  /** Two binaries give the same hex image exactly when they agree once
      padded to whole words: the image loses nothing but the padding. */
  lemma HexFileFaithful(a: seq<byte>, b: seq<byte>)
    ensures HexFile(a) == HexFile(b) <==> PadToWord(a) == PadToWord(b)
  {
    if HexFile(a) == HexFile(b) {
      HexTextInjective(WordsOf(a), WordsOf(b));
      UnwordsWords(PadToWord(a));
      UnwordsWords(PadToWord(b));
    }
  }

  /** sim/bin2hex.py: pad the data one zero byte at a time to a multiple of
      four, then write each little-endian word as a line; the reported word
      count is the padded length over four. */
  method BinToHex(data: seq<byte>) returns (text: string, count: nat)
    ensures text == HexFile(data)
    ensures count == (|data| + 3) / 4
    ensures |text| == 9 * count
  {
    var padded := PadToWordBoundary(data);
    ghost var ws := Words(padded);
    text := [];
    var i := 0;
    ghost var j := 0;
    while i < |padded|
      invariant i == 4 * j && i <= |padded|
      invariant text == HexText(ws[..j])
      decreases |padded| - i
    {
      var word := Word(padded[i..i + 4]);
      WordsIndex(padded, j);
      assert ws[..j + 1][..j] == ws[..j];
      text := text + Hex8(word, false) + "\n";
      i, j := i + 4, j + 1;
    }
    assert ws[..j] == ws;
    count := |padded| / 4;
    HexTextLayout(ws);
  }
}
