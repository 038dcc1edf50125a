/** tools/add_padding.py without the file system: a binary zero-padded to a
    fixed size and written as one little-endian word per line, the lines
    joined by newlines with none after the last. */
module AddPadding {
  import opened Wrappers
  import opened Bits
  import opened Bytes
  import opened Text
  import opened Numerals
  import opened HexImage

  /** `data` zero-padded to exactly `target` bytes, or `None` when it is
      already longer. */
  function PadTo(data: seq<byte>, target: int): (r: Option<seq<byte>>)
    ensures r.None? <==> |data| > target
    ensures r.Some? ==> |r.value| == target && r.value[..|data|] == data
                        && forall i | |data| <= i < target :: r.value[i] == 0
  {
    if |data| > target then None
    else
      var padded := data + Zeros(target - |data|);
      assert padded[..|data|] == data;
      Some(padded)
  }

  /** `'{:08x}'` of every word. */
  function HexLines(ws: seq<u32>): (lines: seq<string>)
  {
    seq(|ws|, i requires 0 <= i < |ws| => Hex8(ws[i], false))
  }

  /** Every line is eight characters without a newline, and `int(line, 16)`
      reads its word back. */
  lemma HexLinesReadBack(ws: seq<u32>)
    ensures |HexLines(ws)| == |ws|
    ensures forall i | 0 <= i < |ws| ::
      |HexLines(ws)[i]| == 8 && '\n' !in HexLines(ws)[i] && ParseInt(HexLines(ws)[i], 16) == Some(ws[i] as int)
  {
    forall i | 0 <= i < |ws|
      ensures |HexLines(ws)[i]| == 8 && '\n' !in HexLines(ws)[i] && ParseInt(HexLines(ws)[i], 16) == Some(ws[i] as int)
    {
      ParseHex8(ws[i]);
      Hex8HasNoNewline(ws[i]);
    }
  }

  /** The text `add_padding_and_hex` writes, or `None` when it returns
      `False`: a trailing partial word is read as if zero-extended. */
  function PaddingHex(data: seq<byte>, target: int): Option<string>
  {
    match PadTo(data, target)
    case None => None
    case Some(padded) => Some(Join(HexLines(WordsOf(padded)), '\n'))
  }

  // ---------------------------------------------------------------------
  // Building words with shifts and ors
  // ---------------------------------------------------------------------

  /** The little-endian value of a byte string. */
  function LeValue(s: seq<byte>): (v: nat)
    ensures v < Pow2(8 * |s|)
  {
    if |s| == 0 then 0
    else
      var init := s[..|s| - 1];
      var v := LeValue(init);
      Pow2Add(8 * |init|, 8);
      Pow2Values();
      MulStrict(Pow2(8 * |init|), s[|s| - 1], 0x100);
      v + Pow2(8 * |init|) * s[|s| - 1]
  }

  /** Four little-endian bytes read as a word. */
  lemma WordIsLeValue(s: seq<byte>)
    requires |s| == 4
    ensures Word(s) == LeValue(s)
  {
    Pow2Values();
    Pow2Add(16, 8);
    var b0, b1, b2: int := s[0], s[1], s[2];
    assert s[..1][..0] == [];
    assert LeValue(s[..1]) == b0;
    assert s[..2][..1] == s[..1];
    assert LeValue(s[..2]) == b0 + 0x100 * b1;
    assert s[..3][..2] == s[..2];
    assert LeValue(s[..3]) == b0 + 0x100 * b1 + 0x1_0000 * b2;
    assert s[..4][..3] == s[..3];
    assert s[..4] == s;
  }

  /** `data[i] | (data[i+1] << 8) | (data[i+2] << 16) | (data[i+3] << 24)`. */
  function OrWord(b0: byte, b1: byte, b2: byte, b3: byte): nat
  {
    Or(Or(Or(b0, b1 as nat * 0x100), b2 as nat * 0x1_0000), b3 as nat * 0x100_0000)
  }

  /** The four byte lanes never overlap, so the ors are sums. */
  lemma OrWordIsWord(b0: byte, b1: byte, b2: byte, b3: byte)
    ensures OrWord(b0, b1, b2, b3) == Word([b0, b1, b2, b3])
  {
    Pow2Values();
    Pow2Add(16, 8);
    var x1, x2, x3: nat := b1 as nat * 0x100, b2 as nat * 0x1_0000, b3 as nat * 0x100_0000;
    DivUnique(x1, 0x100, b1, 0);
    DivUnique(x2, 0x1_0000, b2, 0);
    DivUnique(x3, 0x100_0000, b3, 0);
    OrDisjoint(b0, x1, 8);
    var lo := b0 + x1;
    OrDisjoint(lo, x2, 16);
    var mid := lo + x2;
    OrDisjoint(mid, x3, 24);
  }

  /** One step of the partial-word loop: `word |= b << (j * 8)`. */
  lemma OrLane(s: seq<byte>, j: nat)
    requires j < |s|
    ensures Or(LeValue(s[..j]), s[j] * Pow2(8 * j)) == LeValue(s[..j + 1])
  {
    assert s[..j + 1][..j] == s[..j];
    DivUnique(s[j] * Pow2(8 * j), Pow2(8 * j), s[j], 0);
    OrDisjoint(LeValue(s[..j]), s[j] * Pow2(8 * j), 8 * j);
  }

  /** The padded bytes of a word that starts at `i`, zeros beyond the end. */
  lemma PaddedWord(padded: seq<byte>, i: nat)
    requires i % 4 == 0 && i < |padded|
    ensures var ext := PadToWord(padded)[i..i + 4];
      && i / 4 < |WordsOf(padded)|
      && WordsOf(padded)[i / 4] == Word(ext)
      && forall j | 0 <= j < 4 :: ext[j] == if i + j < |padded| then padded[i + j] else 0
  {
    var p := PadToWord(padded);
    assert 4 * (i / 4) == i;
    WordsIndex(p, i / 4);
  }

  /** The word of the line for offset `i`: a full word from one
      or-expression, a trailing partial word byte by byte. */
  method ReadWord(padded: seq<byte>, i: nat) returns (word: nat)
    requires i % 4 == 0 && i < |padded|
    ensures i / 4 < |WordsOf(padded)| && word == WordsOf(padded)[i / 4]
  {
    PaddedWord(padded, i);
    if i + 3 < |padded| {
      word := Or(Or(Or(padded[i], padded[i + 1] as nat * 0x100), padded[i + 2] as nat * 0x1_0000), padded[i + 3] as nat * 0x100_0000);
      OrWordIsWord(padded[i], padded[i + 1], padded[i + 2], padded[i + 3]);
      assert [padded[i], padded[i + 1], padded[i + 2], padded[i + 3]] == PadToWord(padded)[i..i + 4];
    } else {
      word := PartialWord(padded, i);
    }
  }

  /** A trailing partial word: `word |= data[i + j] << (j * 8)` for each
      byte that is there. */
  method PartialWord(padded: seq<byte>, i: nat) returns (word: nat)
    requires i % 4 == 0 && i < |padded|
    ensures word == Word(PadToWord(padded)[i..i + 4])
  {
    word := 0;
    for j := 0 to 4
      invariant word == LeValue(PadToWord(padded)[i..i + 4][..j])
    {
      PartialStep(padded, i, j, word);
      if i + j < |padded| {
        word := Or(word, Shl(padded[i + j], j * 8));
      }
    }
    PartialDone(padded, i);
  }

  /** One pass of the partial-word loop: a byte that is there is or-ed into
      its lane, a missing one leaves the word as the zero byte would. */
  lemma PartialStep(padded: seq<byte>, i: nat, j: nat, word: nat)
    requires i % 4 == 0 && i < |padded| && j < 4
    requires word == LeValue(PadToWord(padded)[i..i + 4][..j])
    ensures var ext := PadToWord(padded)[i..i + 4];
      (if i + j < |padded| then Or(word, Shl(padded[i + j], j * 8)) else word)
      == LeValue(ext[..j + 1])
  {
    PaddedWord(padded, i);
    var ext := PadToWord(padded)[i..i + 4];
    OrLane(ext, j);
    if i + j >= |padded| {
      assert ext[..j + 1][..j] == ext[..j];
    }
  }

  lemma PartialDone(padded: seq<byte>, i: nat)
    requires i % 4 == 0 && i < |padded|
    ensures var ext := PadToWord(padded)[i..i + 4];
      LeValue(ext[..4]) == Word(ext)
  {
    var ext := PadToWord(padded)[i..i + 4];
    assert ext[..4] == ext;
    WordIsLeValue(ext);
  }

  /** `add_padding_and_hex`: the size check, the zero padding, then one line
      per four bytes, a full word from one or-expression and a trailing
      partial word byte by byte. */
  method AddPaddingAndHex(data: seq<byte>, target: int) returns (r: Option<string>)
    ensures r == PaddingHex(data, target)
  {
    if |data| > target {
      return None;
    }
    var padded := data + Zeros(target - |data|);
    var lines := HexWords(padded);
    return Some(Join(lines, '\n'));
  }

  /** The conversion loop over the padded data, four bytes at a time. */
  method HexWords(padded: seq<byte>) returns (lines: seq<string>)
    ensures lines == HexLines(WordsOf(padded))
  {
    ghost var ws := WordsOf(padded);
    lines := [];
    var i := 0;
    while i < |padded|
      invariant i % 4 == 0 && i / 4 <= |ws|
      invariant i < |padded| ==> i / 4 < |ws|
      invariant i >= |padded| ==> i / 4 == |ws|
      invariant lines == HexLines(ws[..i / 4])
      decreases |padded| - i
    {
      var word := ReadWord(padded, i);
      assert ws[..i / 4 + 1] == ws[..i / 4] + [ws[i / 4]];
      lines := lines + [Hex8(word, false)];
      i := i + 4;
    }
    assert ws[..i / 4] == ws;
  }

  // ---------------------------------------------------------------------
  // What the text holds
  // ---------------------------------------------------------------------

  /** For a positive target the file has one line per word of the padded
      data, a trailing partial word counting as a word: line `i` is the eight
      hex digits of bytes `4i` to `4i + 3`, zeros beyond the target, and reads
      back as that word. */
  lemma PaddingHexLines(data: seq<byte>, target: int)
    requires PaddingHex(data, target).Some? && target > 0
    ensures var lines := Split(PaddingHex(data, target).value, '\n');
      var padded := PadToWord(data + Zeros(target - |data|));
      && |lines| == (target + 3) / 4
      && forall i | 0 <= i < |lines| ::
           && lines[i] == Hex8(Word(padded[4 * i .. 4 * i + 4]), false)
           && ParseInt(lines[i], 16) == Some(Word(padded[4 * i .. 4 * i + 4]))
  {
    var padded := data + Zeros(target - |data|);
    var ws := WordsOf(padded);
    var lines := HexLines(ws);
    forall l | l in lines
      ensures '\n' !in l
    {
      var i :| 0 <= i < |lines| && lines[i] == l;
      Hex8HasNoNewline(ws[i]);
    }
    SplitJoin(lines, '\n');
    forall i | 0 <= i < |lines|
      ensures lines[i] == Hex8(Word(PadToWord(padded)[4 * i .. 4 * i + 4]), false)
      ensures ParseInt(lines[i], 16) == Some(Word(PadToWord(padded)[4 * i .. 4 * i + 4]))
    {
      WordsIndex(PadToWord(padded), i);
      ParseHex8(ws[i]);
    }
  }

  /** A zero target with no data gives an empty file. */
  lemma EmptyTarget()
    ensures PaddingHex([], 0) == Some("")
  {
    assert WordsOf([]) == [];
  }
}
