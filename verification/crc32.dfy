/** CRC-32 as the repository computes it (the ISO-HDLC / IEEE 802.3 CRC:
    reflected polynomial 0xEDB88320, register preset to all ones, result
    complemented), in its two forms:

    - bitwise, one register shift per input bit, as the host tools compute it
      (tools/upload_tool.py `crc32`, tools/add_bootloader_header.py `crc32`);
    - table-driven, one lookup per input byte, as the bootloader computes it
      (`crc32_init_table`, `crc32_calculate` and the inline update in
      `receive_firmware`).

    The central result is that the two agree on every byte string, and that
    folding a byte string in pieces gives the same register as folding it
    whole. */
module Crc {
  import opened Bits
  import opened Bytes

  /** The reflected generator polynomial. */
  const POLY: u32 := 0xEDB8_8320

  /** The register preset and the final complement mask. */
  const ALL_ONES: u32 := 0xFFFF_FFFF

  /** One register shift: `crc & 1 ? (crc >> 1) ^ POLY : crc >> 1`. */
  function Step(c: u32): u32
  {
    if c % 2 == 1 then XorWord(c / 2, POLY) else c / 2
  }

  /** `n` register shifts. */
  function Steps(c: u32, n: nat): u32
  {
    if n == 0 then c else Step(Steps(c, n - 1))
  }

  /** Table entry `i`: eight shifts starting from the byte value `i`. */
  function Entry(i: byte): u32
  {
    Steps(i, 8)
  }

  /** Entry `0x80` of the table is `0xEDB88320`, as in the standard CRC-32
      table: seven shifts bring the set bit down to bit 0 and the eighth
      takes the polynomial. */
  lemma EntryHighBit(b: byte)
    requires b == 0x80
    ensures Entry(b) == 0xEDB8_8320
  {
    assert Steps(b, 1) == 0x40;
    assert Steps(b, 2) == 0x20;
    assert Steps(b, 3) == 0x10;
    assert Steps(b, 4) == 0x08;
    assert Steps(b, 5) == 0x04;
    assert Steps(b, 6) == 0x02;
    assert Steps(b, 7) == 0x01;
  }

  /** The 256-entry lookup table. */
  function Table(): (t: seq<u32>)
    ensures |t| == 256
  {
    seq(256, i requires 0 <= i < 256 => Entry(i))
  }

  /** Bitwise per-byte update of the host tools: `crc ^= byte` and eight shifts. */
  function BitwiseUpdate(c: u32, b: byte): u32
  {
    Steps(XorWord(c, b), 8)
  }

  /** Table per-byte update of the bootloader:
      `crc32_table[(crc ^ byte) & 0xFF] ^ (crc >> 8)`. */
  function TableUpdate(c: u32, b: byte): u32
  {
    XorWord(Table()[XorWord(c, b) % 0x100], c / 0x100)
  }

  /** The register after folding `data` bitwise, starting from `c`. */
  function FoldBitwise(c: u32, data: seq<byte>): u32
    decreases |data|
  {
    if |data| == 0 then c
    else BitwiseUpdate(FoldBitwise(c, data[..|data| - 1]), data[|data| - 1])
  }

  /** The register after folding `data` through the table, starting from `c`. */
  function FoldTable(c: u32, data: seq<byte>): u32
    decreases |data|
  {
    if |data| == 0 then c
    else TableUpdate(FoldTable(c, data[..|data| - 1]), data[|data| - 1])
  }

  /** The host tools' final step `(~crc) & 0xFFFFFFFF` on a Python integer. */
  function MaskedComplement(c: u32): u32
  {
    var v: int := -(c as int) - 1;
    v % U32_LIMIT
  }

  /** The bootloader's final step `~crc` on a `uint32_t`. */
  function Complement(c: u32): u32
  {
    ALL_ONES - c
  }

  /** CRC-32 as the host tools define it. */
  function Crc32(data: seq<byte>): u32
  {
    MaskedComplement(FoldBitwise(ALL_ONES, data))
  }

  /** CRC-32 as the bootloader computes it. */
  function TableCrc32(data: seq<byte>): u32
  {
    Complement(FoldTable(ALL_ONES, data))
  }

  // ---------------------------------------------------------------------
  // Linearity of the register shift
  // ---------------------------------------------------------------------

  /** A shift distributes over exclusive or. */
  lemma StepXor(a: u32, b: u32)
    ensures Step(XorWord(a, b)) == XorWord(Step(a), Step(b))
  {
    XorUnfold(a, b);
    var a2, b2 := a / 2, b / 2;
    if a % 2 == 1 && b % 2 == 1 {
      XorCancel(a2, b2, POLY);
    } else if a % 2 == 1 {
      XorSwap(a2, b2, POLY);
    } else if b % 2 == 1 {
      XorAssoc(a2, b2, POLY);
    }
  }

  lemma {:induction false} StepsXor(a: u32, b: u32, n: nat)
    ensures Steps(XorWord(a, b), n) == XorWord(Steps(a, n), Steps(b, n))
  {
    if n > 0 {
      StepsXor(a, b, n - 1);
      StepXor(Steps(a, n - 1), Steps(b, n - 1));
    }
  }

  /** Shifting `2^n * h` by `n` places recovers `h`: bits above the low `n`
      never feed back the polynomial. */
  lemma {:induction false} StepsShiftOut(h: nat, n: nat)
    requires Pow2(n) * h < U32_LIMIT
    ensures Steps(Pow2(n) * h, n) == h
    decreases n
  {
    if n > 0 {
      assert Pow2(n) * h == Pow2(n - 1) * (2 * h);
      StepsShiftOut(2 * h, n - 1);
    }
  }

  /** The bootloader's table update equals the tools' eight bitwise shifts. */
  lemma UpdatesAgree(c: u32, b: byte)
    ensures TableUpdate(c, b) == BitwiseUpdate(c, b)
  {
    Pow2Values();
    var x := XorWord(c, b);
    var lo, hi := x % 0x100, x / 0x100;
    assert x == lo + 0x100 * hi;
    XorDisjoint(lo, 0x100 * hi, 8);
    assert x == XorWord(lo, 0x100 * hi);
    StepsXor(lo, 0x100 * hi, 8);
    StepsShiftOut(hi, 8);
    XorShift(c, b, 8);
    SmallDivMod(b, 0x100);
    XorZeroRight(c / 0x100);
    assert hi == c / 0x100;
  }

  lemma {:induction false} FoldsAgree(c: u32, data: seq<byte>)
    ensures FoldTable(c, data) == FoldBitwise(c, data)
    decreases |data|
  {
    if |data| > 0 {
      FoldsAgree(c, data[..|data| - 1]);
      UpdatesAgree(FoldTable(c, data[..|data| - 1]), data[|data| - 1]);
    }
  }

  lemma ComplementsAgree(c: u32)
    ensures MaskedComplement(c) == Complement(c)
  {
    var v: int := -(c as int) - 1;
    DivUnique(v, U32_LIMIT, -1, U32_LIMIT - 1 - c);
  }

  /** The table-driven CRC of the bootloader and the bitwise CRC of the host
      tools are the same function of the byte string. */
  lemma TableCrcIsCrc32(data: seq<byte>)
    ensures TableCrc32(data) == Crc32(data)
  {
    FoldsAgree(ALL_ONES, data);
    ComplementsAgree(FoldBitwise(ALL_ONES, data));
  }

  /** The CRC of no bytes is zero. */
  lemma Crc32Empty()
    ensures Crc32([]) == 0 && TableCrc32([]) == 0
  {
    ComplementsAgree(ALL_ONES);
  }

  // ---------------------------------------------------------------------
  // Incremental computation
  // ---------------------------------------------------------------------

  /** Folding `a + b` is folding `a`, then continuing with `b`. */
  lemma {:induction false} FoldTableAppend(c: u32, a: seq<byte>, b: seq<byte>)
    ensures FoldTable(c, a + b) == FoldTable(FoldTable(c, a), b)
    decreases |b|
  {
    if |b| > 0 {
      var ab := a + b;
      assert ab[..|ab| - 1] == a + b[..|b| - 1];
      assert ab[|ab| - 1] == b[|b| - 1];
      FoldTableAppend(c, a, b[..|b| - 1]);
    } else {
      assert a + b == a;
    }
  }

  /** All chunks of `chunks`, concatenated in order. */
  function Flatten(chunks: seq<seq<byte>>): seq<byte>
  {
    if |chunks| == 0 then [] else Flatten(chunks[..|chunks| - 1]) + chunks[|chunks| - 1]
  }

  /** The register after folding each chunk in turn. */
  function FoldChunks(c: u32, chunks: seq<seq<byte>>): u32
  {
    if |chunks| == 0 then c else FoldTable(FoldChunks(c, chunks[..|chunks| - 1]), chunks[|chunks| - 1])
  }

  /** However the input is split into chunks, folding the chunks one after
      another gives the register of folding the whole input. */
  lemma {:induction false} ChunkedFoldIsBulk(c: u32, chunks: seq<seq<byte>>)
    ensures FoldChunks(c, chunks) == FoldTable(c, Flatten(chunks))
  {
    if |chunks| > 0 {
      var init := chunks[..|chunks| - 1];
      ChunkedFoldIsBulk(c, init);
      FoldTableAppend(c, Flatten(init), chunks[|chunks| - 1]);
    }
  }

  // ---------------------------------------------------------------------
  // The bootloader's table and its lazily set flag
  // ---------------------------------------------------------------------

  /** The static `crc32_table` array and its `crc32_table_initialized` flag. */
  datatype TableCache = TableCache(initialized: bool, table: seq<u32>)

  /** What the firmware keeps true of the pair: the array has 256 entries,
      and once the flag is set every entry is final. */
  predicate Consistent(s: TableCache)
  {
    |s.table| == 256 && (s.initialized ==> s.table == Table())
  }

  /** `crc32_init_table`: fills every entry with eight reflected shifts of its
      index and sets the flag; once the flag is set, it returns at once and
      leaves the table as it is. */
  method InitTable(s: TableCache) returns (r: TableCache)
    requires Consistent(s)
    ensures Consistent(r) && r.initialized
    ensures forall i | 0 <= i < 256 :: r.table[i] == Steps(i, 8)
    ensures s.initialized ==> r == s
  {
    if s.initialized {
      return s;
    }
    var t := s.table;
    for i := 0 to 256
      invariant |t| == 256
      invariant forall k | 0 <= k < i :: t[k] == Entry(k)
    {
      var crc: u32 := i;
      for j := 0 to 8
        invariant crc == Steps(i, j)
      {
        if crc % 2 == 1 {
          crc := XorWord(crc / 2, POLY);
        } else {
          crc := crc / 2;
        }
      }
      t := t[i := crc];
    }
    r := TableCache(true, t);
  }

  /** `crc32_calculate`: makes sure the table is built, then folds every byte
      through it from the all-ones preset and complements the register.  The
      result is the host tools' bitwise CRC-32 of the same bytes. */
  method Calculate(s: TableCache, data: seq<byte>) returns (crc: u32, r: TableCache)
    requires Consistent(s)
    ensures crc == Crc32(data)
    ensures Consistent(r) && r.initialized
  {
    r := InitTable(s);
    var c: u32 := ALL_ONES;
    for i := 0 to |data|
      invariant c == FoldTable(ALL_ONES, data[..i])
    {
      assert data[..i + 1][..i] == data[..i];
      c := XorWord(r.table[XorWord(c, data[i]) % 0x100], c / 0x100);
    }
    assert data[..|data|] == data;
    crc := Complement(c);
    TableCrcIsCrc32(data);
  }

  /** The host tools' `crc32`: for each byte, `crc ^= byte` and eight shifts,
      then `(~crc) & 0xFFFFFFFF`.  The result is the bootloader's table CRC. */
  method ToolCrc32(data: seq<byte>) returns (crc: u32)
    ensures crc == TableCrc32(data)
  {
    var c: u32 := ALL_ONES;
    for i := 0 to |data|
      invariant c == FoldBitwise(ALL_ONES, data[..i])
    {
      assert data[..i + 1][..i] == data[..i];
      c := XorWord(c, data[i]);
      ghost var start := c;
      for j := 0 to 8
        invariant c == Steps(start, j)
      {
        if c % 2 == 1 {
          c := XorWord(c / 2, POLY);
        } else {
          c := c / 2;
        }
      }
    }
    assert data[..|data|] == data;
    crc := MaskedComplement(c);
    TableCrcIsCrc32(data);
  }
}
