/** bin2verilog.py without the file system: a binary as Verilog `imem`
    assignments, one per little-endian word, under a two-line comment header
    and a blank line, the lines joined by newlines with none after the last. */
module Bin2Verilog {
  import opened Wrappers
  import opened Bytes
  import opened Numerals
  import opened Text
  import opened HexImage

  /** The assignment for the word `w` at word address `addr`:
      `"imem[{:3d}] = 32'h{:08x};  // addr 0x{:04x}"` of `addr`, `w` and the
      byte address `addr * 4`. */
  function ImemLine(addr: int, w: u32): string
  {
    ImemPrefix(addr) + Hex8(w, false) + ";  // addr 0x" + SignedHex(addr * 4, 4)
  }

  /** The part of an assignment before the word's digits. */
  function ImemPrefix(addr: int): string
  {
    "imem[" + PadLeft(Decimal(addr), ' ', 3) + "] = 32'h"
  }

  /** The lines of the output for the file named `name` holding `data`, the
      first word at word address `start`. */
  function VerilogLines(name: string, data: seq<byte>, start: int): (lines: seq<string>)
    ensures |lines| == 3 + (|data| + 3) / 4
    ensures lines[0] == "// Generated from: " + name
    ensures lines[1] == "// Total words: " + Decimal((|data| + 3) / 4)
    ensures lines[2] == ""
    ensures forall i | 0 <= i < (|data| + 3) / 4 :: lines[3 + i] == ImemLine(start + i, WordsOf(data)[i])
  {
    var ws := WordsOf(data);
    ["// Generated from: " + name, "// Total words: " + Decimal(|ws|), ""]
      + seq(|ws|, i requires 0 <= i < |ws| => ImemLine(start + i, ws[i]))
  }

  /** The text `bin_to_verilog` writes or prints. */
  function VerilogText(name: string, data: seq<byte>, start: int): string
  {
    Join(VerilogLines(name, data, start), '\n')
  }

  /** `bin_to_verilog`: pad the data to a whole number of words, read the
      words, give each its assignment and join the lines; the result is the
      word count. */
  method BinToVerilog(name: string, data: seq<byte>, start: int) returns (text: string, count: nat)
    ensures text == VerilogText(name, data, start)
    ensures count == (|data| + 3) / 4
  {
    var padded := PadToWordBoundary(data);
    var words := ReadWords(padded);
    count := |words|;
    var body := seq(|words|, i requires 0 <= i < |words| => ImemLine(start + i, words[i]));
    var lines := ["// Generated from: " + name, "// Total words: " + Decimal(count), ""] + body;
    assert lines == VerilogLines(name, data, start);
    text := Join(lines, '\n');
  }

  /** The loop `int.from_bytes(data[i:i+4], byteorder='little')` for each
      offset `i` in steps of four. */
  method ReadWords(padded: seq<byte>) returns (words: seq<u32>)
    requires |padded| % 4 == 0
    ensures words == Words(padded)
  {
    words := [];
    var k := 0;
    while k < |padded| / 4
      invariant k <= |padded| / 4
      invariant words == Words(padded)[..k]
    {
      WordsIndex(padded, k);
      words := words + [Word(padded[4 * k .. 4 * k + 4])];
      k := k + 1;
    }
  }

  // ---------------------------------------------------------------------
  // Reading the text back
  // ---------------------------------------------------------------------

  lemma DigitsHaveNoNewline(n: nat, base: nat)
    requires base == 10 || base == 16
    ensures '\n' !in Digits(n, base, false)
  {
    var d := Digits(n, base, false);
    assert forall i | 0 <= i < |d| :: d[i] != '\n' by {
      assert forall i | 0 <= i < |d| :: IsDigit(d[i], base);
    }
  }

  lemma PadLeftNoNewline(s: string, c: char, width: nat)
    requires '\n' !in s && c != '\n'
    ensures '\n' !in PadLeft(s, c, width)
  {
    var r := PadLeft(s, c, width);
    assert r == Repeat(c, |r| - |s|) + s;
  }

  lemma DecimalHasNoNewline(n: int)
    ensures '\n' !in Decimal(n)
  {
    DigitsHaveNoNewline(if n < 0 then -n else n, 10);
  }

  lemma SignedHexHasNoNewline(n: int, width: nat)
    ensures '\n' !in SignedHex(n, width)
  {
    var d := Digits(if n < 0 then -n else n, 16, false);
    DigitsHaveNoNewline(if n < 0 then -n else n, 16);
    PadLeftNoNewline(d, '0', width);
    PadLeftNoNewline(d, '0', if width > 0 then width - 1 else 0);
  }

  /** No assignment spans two lines. */
  lemma ImemLineHasNoNewline(addr: int, w: u32)
    ensures '\n' !in ImemLine(addr, w)
  {
    DecimalHasNoNewline(addr);
    PadLeftNoNewline(Decimal(addr), ' ', 3);
    Hex8HasNoNewline(w);
    SignedHexHasNoNewline(addr * 4, 4);
    var p := ImemPrefix(addr);
    assert '\n' !in p;
  }

  /** The eight digits after the prefix read back as the word. */
  lemma ImemLineWord(addr: int, w: u32)
    ensures var p := ImemPrefix(addr);
      && |ImemLine(addr, w)| >= |p| + 8
      && ImemLine(addr, w)[|p| .. |p| + 8] == Hex8(w, false)
      && ParseInt(ImemLine(addr, w)[|p| .. |p| + 8], 16) == Some(w)
  {
    var p := ImemPrefix(addr);
    var rest := ";  // addr 0x" + SignedHex(addr * 4, 4);
    assert ImemLine(addr, w) == p + Hex8(w, false) + rest;
    ParseHex8(w);
  }

  /** The assignment determines the word it assigns. */
  lemma ImemLineInjective(addr: int, v: u32, w: u32)
    requires ImemLine(addr, v) == ImemLine(addr, w)
    ensures v == w
  {
    ImemLineWord(addr, v);
    ImemLineWord(addr, w);
    Hex8Injective(v, w, false);
  }

  /** Without a newline in the file name, the text splits back into exactly
      the header lines and one assignment per word. */
  lemma VerilogTextLines(name: string, data: seq<byte>, start: int)
    requires '\n' !in name
    ensures Split(VerilogText(name, data, start), '\n') == VerilogLines(name, data, start)
  {
    var lines := VerilogLines(name, data, start);
    forall l | l in lines
      ensures '\n' !in l
    {
      var i :| 0 <= i < |lines| && lines[i] == l;
      LineHasNoNewline(name, data, start, i);
    }
    SplitJoin(lines, '\n');
  }

  lemma LineHasNoNewline(name: string, data: seq<byte>, start: int, i: nat)
    requires '\n' !in name && i < 3 + (|data| + 3) / 4
    ensures '\n' !in VerilogLines(name, data, start)[i]
  {
    if i == 1 {
      DecimalHasNoNewline((|data| + 3) / 4);
    } else if i >= 3 {
      ImemLineHasNoNewline(start + (i - 3), WordsOf(data)[i - 3]);
    }
  }

  /** For a given name and start address, two binaries give the same text
      exactly when they agree once padded to whole words. */
  lemma VerilogTextFaithful(name: string, a: seq<byte>, b: seq<byte>, start: int)
    requires '\n' !in name
    ensures VerilogText(name, a, start) == VerilogText(name, b, start)
            <==> PadToWord(a) == PadToWord(b)
  {
    if VerilogText(name, a, start) == VerilogText(name, b, start) {
      VerilogTextLines(name, a, start);
      VerilogTextLines(name, b, start);
      var la, lb := VerilogLines(name, a, start), VerilogLines(name, b, start);
      var wa, wb := WordsOf(a), WordsOf(b);
      assert |wa| == |wb|;
      forall i | 0 <= i < |wa|
        ensures wa[i] == wb[i]
      {
        assert la[3 + i] == lb[3 + i];
        ImemLineInjective(start + i, wa[i], wb[i]);
      }
      assert wa == wb;
      UnwordsWords(PadToWord(a));
      UnwordsWords(PadToWord(b));
    }
  }
}
