/** The 20-byte firmware header shared by the bootloader and the host tools:
    five little-endian 32-bit words `magic`, `version`, `size`, `crc32` and
    `reserved`, as the packed C struct `firmware_header_t` lays them out and
    as `struct.pack('<IIIII', ...)` writes them.  Also the version word that
    both tools pack from `major.minor.patch`. */
module Image {
  import opened Wrappers
  import opened Bits
  import opened Bytes

  const BOOT_MAGIC: u32 := 0xB007_ABCD
  const HEADER_SIZE: nat := 20
  const MAX_APP_SIZE: nat := 16 * 1024
  const APP_START_ADDR: u32 := 0x4000

  datatype Header = Header(magic: u32, version: u32, size: u32, crc32: u32, reserved: u32)

  /** The header's bytes in memory or on the wire. */
  function Pack(h: Header): (s: seq<byte>)
    ensures |s| == HEADER_SIZE
  {
    Le32(h.magic) + Le32(h.version) + Le32(h.size) + Le32(h.crc32) + Le32(h.reserved)
  }

  /** The header a 20-byte buffer holds when read as `firmware_header_t`. */
  function Parse(s: seq<byte>): Header
    requires |s| == HEADER_SIZE
  {
    Header(Word(s[0..4]), Word(s[4..8]), Word(s[8..12]), Word(s[12..16]), Word(s[16..20]))
  }

  /** Reading back a written header gives the same fields. */
  lemma ParsePack(h: Header)
    ensures Parse(Pack(h)) == h
  {
    var s := Pack(h);
    assert s[0..4] == Le32(h.magic) && s[4..8] == Le32(h.version) && s[8..12] == Le32(h.size);
    assert s[12..16] == Le32(h.crc32) && s[16..20] == Le32(h.reserved);
    WordOfLe32(h.magic);
    WordOfLe32(h.version);
    WordOfLe32(h.size);
    WordOfLe32(h.crc32);
    WordOfLe32(h.reserved);
  }

  /** Every 20-byte buffer is the packing of the header it holds. */
  lemma PackParse(s: seq<byte>)
    requires |s| == HEADER_SIZE
    ensures Pack(Parse(s)) == s
  {
    Le32OfWord(s[0..4]);
    Le32OfWord(s[4..8]);
    Le32OfWord(s[8..12]);
    Le32OfWord(s[12..16]);
    Le32OfWord(s[16..20]);
    assert s == s[0..4] + s[4..8] + s[8..12] + s[12..16] + s[16..20];
  }

  /** The first word of the packed header is the magic number. */
  lemma PackedMagic(h: Header)
    ensures Word(Pack(h)[..4]) == h.magic
  {
    assert Pack(h)[..4] == Le32(h.magic);
    WordOfLe32(h.magic);
  }

  // ---------------------------------------------------------------------
  // Version word
  // ---------------------------------------------------------------------

  /** Three version numbers as the tools parse them from `X.Y.Z`. */
  datatype Version = Version(major: int, minor: int, patch: int)

  /** `(major << 16) | (minor << 8) | patch` on Python integers, then stored
      with `struct.pack('<I', ...)`: `None` where `struct.pack` raises, which
      is when the value is negative (exactly when some part is negative) or
      does not fit in 32 bits. */
  function PackVersion(v: Version): Option<u32>
  {
    if v.major < 0 || v.minor < 0 || v.patch < 0 then None
    else
      var w := Or(Or(Pow2(16) * v.major, Pow2(8) * v.minor), v.patch);
      if w < U32_LIMIT then Some(w) else None
  }

  /** The version word is storable exactly when no part is negative and each
      shifted part fits in 32 bits. */
  lemma PackVersionDefined(v: Version)
    ensures PackVersion(v).Some? <==>
      0 <= v.major < 0x1_0000 && 0 <= v.minor < 0x100_0000 && 0 <= v.patch < U32_LIMIT
  {
    Pow2Values();
    U32Limit();
    if v.major >= 0 && v.minor >= 0 && v.patch >= 0 {
      var a, b, c := Pow2(16) * v.major, Pow2(8) * v.minor, v.patch;
      OrAtLeast(a, b);
      OrAtLeast(Or(a, b), c);
      Pow2Add(16, 16);
      Pow2Add(8, 24);
      Pow2Values();
      assert v.major < 0x1_0000 <==> a < U32_LIMIT;
      assert v.minor < 0x100_0000 <==> b < U32_LIMIT;
      if a < U32_LIMIT && b < U32_LIMIT && c < U32_LIMIT {
        OrBelow(a, b, 32);
        OrBelow(Or(a, b), c, 32);
      }
    }
  }

  /** With byte-sized minor and patch numbers the version word holds the
      three parts side by side and gives each of them back. */
  lemma PackVersionFields(v: Version)
    requires 0 <= v.major < 0x1_0000 && 0 <= v.minor < 0x100 && 0 <= v.patch < 0x100
    ensures PackVersion(v) == Some(0x1_0000 * v.major + 0x100 * v.minor + v.patch)
    ensures var w := PackVersion(v).value;
      w / 0x1_0000 == v.major && (w / 0x100) % 0x100 == v.minor && w % 0x100 == v.patch
  {
    PackVersionSum(v);
    FieldsSideBySide(v.major, v.minor, v.patch);
  }

  /** With byte-sized minor and patch numbers the ors are sums. */
  lemma PackVersionSum(v: Version)
    requires 0 <= v.major < 0x1_0000 && 0 <= v.minor < 0x100 && 0 <= v.patch < 0x100
    ensures PackVersion(v) == Some(0x1_0000 * v.major + 0x100 * v.minor + v.patch)
  {
    OrLanes(v.major, v.minor, v.patch);
    U32Limit();
  }

  /** Parts in disjoint lanes: the ors are sums. */
  lemma OrLanes(major: nat, minor: nat, patch: nat)
    requires major < 0x1_0000 && minor < 0x100 && patch < 0x100
    ensures Or(Or(Pow2(16) * major, Pow2(8) * minor), patch) == 0x1_0000 * major + 0x100 * minor + patch
  {
    Pow2Values();
    var a: nat, b: nat := 0x1_0000 * major, 0x100 * minor;
    DivUnique(a, 0x1_0000, major, 0);
    OrComm(a, b);
    OrDisjoint(b, a, 16);
    DivUnique(a + b, 0x100, 0x100 * major + minor, 0);
    OrComm(a + b, patch);
    OrDisjoint(patch, a + b, 8);
  }

  lemma FieldsSideBySide(major: int, minor: int, patch: int)
    requires 0 <= major < 0x1_0000 && 0 <= minor < 0x100 && 0 <= patch < 0x100
    ensures var w := 0x1_0000 * major + 0x100 * minor + patch;
      w / 0x1_0000 == major && (w / 0x100) % 0x100 == minor && w % 0x100 == patch
  {
    var w := 0x1_0000 * major + 0x100 * minor + patch;
    DivUnique(w, 0x1_0000, major, 0x100 * minor + patch);
    DivUnique(w, 0x100, 0x100 * major + minor, patch);
    DivUnique(0x100 * major + minor, 0x100, major, minor);
  }

  /** Minor and patch numbers are not confined to a byte, so different
      versions can pack to the same word: 1.0.256 and 1.1.0 are both 0x10100. */
  lemma VersionWordsCollide()
    ensures PackVersion(Version(1, 0, 256)) == PackVersion(Version(1, 1, 0)) == Some(0x1_0100)
  {
    Pow2Values();
    PackVersionFields(Version(1, 1, 0));
    OrZero(Pow2(16));
    OrComm(Pow2(16), 256);
    OrDisjoint(256, Pow2(16), 16);
  }

  lemma OrZero(a: nat)
    ensures Or(a, 0) == a && Or(0, a) == a
  {
  }
}
