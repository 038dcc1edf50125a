/** Bytes, unsigned 32-bit words and the little-endian layout that both sides
    of the update protocol use: the firmware reads a packed `uint32_t` struct
    from memory on a little-endian RV32 core, and the host tools write it with
    `struct.pack('<I', ...)` and read words with `int.from_bytes(..., 'little')`. */
module Bytes {
  import opened Bits

  type byte = x: int | 0 <= x < 0x100
  type u32 = x: int | 0 <= x < 0x1_0000_0000

  const U32_LIMIT: int := 0x1_0000_0000

  lemma U32Limit()
    ensures Pow2(32) == U32_LIMIT
  {
    Pow2Values();
  }

  /** `a ^ b` on two `uint32_t` values: the result stays a 32-bit word. */
  function XorWord(a: u32, b: u32): u32
  {
    U32Limit();
    XorBound(a, b, 32);
    Xor(a, b)
  }

  /** The four bytes of `w`, least significant first. */
  function Le32(w: u32): (r: seq<byte>)
    ensures |r| == 4
  {
    [w % 0x100, (w / 0x100) % 0x100, (w / 0x1_0000) % 0x100, w / 0x100_0000]
  }

  /** The word whose little-endian bytes are `s`. */
  function Word(s: seq<byte>): u32
    requires |s| == 4
  {
    var b0, b1, b2, b3: int := s[0], s[1], s[2], s[3];
    b0 + 0x100 * b1 + 0x1_0000 * b2 + 0x100_0000 * b3
  }

  lemma WordOfLe32(w: u32)
    ensures Word(Le32(w)) == w
  {
    var b0, q1 := w % 0x100, w / 0x100;
    var b1, b2 := q1 % 0x100, (w / 0x1_0000) % 0x100;
    assert w == b0 + 0x100 * q1;
    assert q1 == b1 + 0x100 * (q1 / 0x100);
    DivUnique(w, 0x1_0000, q1 / 0x100, b0 + 0x100 * b1);
    var q2 := w / 0x1_0000;
    assert q2 == b2 + 0x100 * (q2 / 0x100);
    DivUnique(w, 0x100_0000, q2 / 0x100, b0 + 0x100 * b1 + 0x1_0000 * b2);
  }

  lemma Le32OfWord(s: seq<byte>)
    requires |s| == 4
    ensures Le32(Word(s)) == s
  {
    var w := Word(s);
    var b0, b1, b2, b3: int := s[0], s[1], s[2], s[3];
    DivUnique(w, 0x100, b1 + 0x100 * b2 + 0x1_0000 * b3, b0);
    DivUnique(w, 0x1_0000, b2 + 0x100 * b3, b0 + 0x100 * b1);
    DivUnique(w, 0x100_0000, b3, b0 + 0x100 * b1 + 0x1_0000 * b2);
    DivUnique(b1 + 0x100 * b2 + 0x1_0000 * b3, 0x100, b2 + 0x100 * b3, b1);
    DivUnique(b2 + 0x100 * b3, 0x100, b3, b2);
  }

  /** `data` read as consecutive little-endian words. */
  function Words(data: seq<byte>): (ws: seq<u32>)
    requires |data| % 4 == 0
    ensures |ws| == |data| / 4
    decreases |data|
  {
    if |data| == 0 then [] else [Word(data[..4])] + Words(data[4..])
  }

  /** The little-endian bytes of consecutive words. */
  function Unwords(ws: seq<u32>): (data: seq<byte>)
    ensures |data| == 4 * |ws|
  {
    if |ws| == 0 then [] else Le32(ws[0]) + Unwords(ws[1..])
  }

  /** Word `i` is bytes `4i .. 4i+3` read little-endian. */
  lemma {:induction false} WordsIndex(data: seq<byte>, i: nat)
    requires |data| % 4 == 0 && i < |data| / 4
    ensures Words(data)[i] == Word(data[4 * i .. 4 * i + 4])
    decreases i
  {
    if i > 0 {
      WordsIndex(data[4..], i - 1);
      assert data[4..][4 * (i - 1) .. 4 * (i - 1) + 4] == data[4 * i .. 4 * i + 4];
    }
  }

  lemma {:induction false} UnwordsWords(data: seq<byte>)
    requires |data| % 4 == 0
    ensures Unwords(Words(data)) == data
    decreases |data|
  {
    if |data| > 0 {
      Le32OfWord(data[..4]);
      UnwordsWords(data[4..]);
      assert Words(data)[1..] == Words(data[4..]);
      assert data == data[..4] + data[4..];
    }
  }

  lemma {:induction false} WordsUnwords(ws: seq<u32>)
    ensures Words(Unwords(ws)) == ws
  {
    if |ws| > 0 {
      var d := Unwords(ws);
      assert d[..4] == Le32(ws[0]);
      assert d[4..] == Unwords(ws[1..]);
      WordOfLe32(ws[0]);
      WordsUnwords(ws[1..]);
      assert ws == [ws[0]] + ws[1..];
    }
  }

  /** `n` zero bytes: `b'\x00' * n`. */
  function Zeros(n: nat): (z: seq<byte>)
    ensures |z| == n
    ensures forall i | 0 <= i < n :: z[i] == 0
  {
    seq(n, _ => 0)
  }

  /** How many zero bytes bring `n` bytes up to a multiple of four. */
  function PadLength(n: nat): (k: nat)
    ensures k < 4 && (n + k) % 4 == 0
  {
    (4 - n % 4) % 4
  }

  /** The smallest zero-extension of `data` whose length is a multiple of four. */
  function PadToWord(data: seq<byte>): (r: seq<byte>)
    ensures |r| % 4 == 0
  {
    data + Zeros(PadLength(|data|))
  }

  /** The padding `while len(data) % 4 != 0: data += b'\x00'` shared by the
      image serialisers: it appends zero bytes one at a time until the length
      is a multiple of four. */
  method PadToWordBoundary(data: seq<byte>) returns (r: seq<byte>)
    ensures |data| <= |r| < |data| + 4 && |r| % 4 == 0
    ensures r[..|data|] == data
    ensures forall i | |data| <= i < |r| :: r[i] == 0
    ensures r == PadToWord(data)
  {
    r := data;
    while |r| % 4 != 0
      invariant |data| <= |r| <= |data| + PadLength(|data|)
      invariant r[..|data|] == data
      invariant forall i | |data| <= i < |r| :: r[i] == 0
      decreases |data| + PadLength(|data|) - |r|
    {
      r := r + [0];
    }
    assert |r| == |data| + PadLength(|data|);
    assert r == PadToWord(data);
  }
}
