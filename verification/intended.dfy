/** The bootloader as its protocol evidently intends it, next to the model of
    the firmware as written in `Bootloader`.  Two things differ:

    - the resident-image check reads `size` bytes after the header, the count
      the host tools write and the update session receives, instead of
      `size - 20` in 32-bit arithmetic (which also wraps for a `size` below
      20);
    - an accepted update is written to the application region before the
      reboot, instead of being only simulated.

    With both corrections an update that the session accepts is the image
    the next boot jumps to. */
module Intended {
  import opened Bytes
  import opened Crc
  import opened Image
  import opened Transport
  import opened Bootloader
  import opened UploadTool
  import opened Interop

  // ---------------------------------------------------------------------
  // The resident-image check over the payload the header announces
  // ---------------------------------------------------------------------

  /** The `size` bytes right after the header at `addr`. */
  function PayloadBytes(mem: Memory, addr: u32): seq<byte>
  {
    ReadMemory(mem, Add32(addr, HEADER_SIZE), StoredHeader(mem, addr).size)
  }

  /** The resident-image check with the count corrected: magic number, size
      cap, then the CRC-32 of the `size` payload bytes.  It never reads more
      than the size cap allows. */
  function VerifyPayload(mem: Memory, addr: u32): (v: Bootloader.Verdict)
    ensures var h := StoredHeader(mem, addr);
      && (v.NoMagic? <==> h.magic != BOOT_MAGIC)
      && (v.Oversized? <==> h.magic == BOOT_MAGIC && h.size > MAX_APP_SIZE)
      && (v.CrcFailed? ==> v.expected == h.crc32 && v.computed == Crc32(PayloadBytes(mem, addr)))
      && (v == Valid <==> h.magic == BOOT_MAGIC && h.size <= MAX_APP_SIZE
                          && Crc32(PayloadBytes(mem, addr)) == h.crc32)
      && ((v == Valid || v.CrcFailed?) ==> |PayloadBytes(mem, addr)| == h.size <= MAX_APP_SIZE)
  {
    var h := StoredHeader(mem, addr);
    if h.magic != BOOT_MAGIC then NoMagic(h.magic)
    else if h.size > MAX_APP_SIZE then Oversized(h.size)
    else
      var crc := TableCrc32(PayloadBytes(mem, addr));
      TableCrcIsCrc32(PayloadBytes(mem, addr));
      if crc != h.crc32 then CrcFailed(h.crc32, crc) else Valid
  }

  /** Where the firmware's count does not wrap, it checks the payload less
      its last 20 bytes. */
  lemma CheckedIsPayloadPrefix(mem: Memory, addr: u32)
    requires StoredHeader(mem, addr).size >= HEADER_SIZE
    ensures CheckedBytes(mem, addr) == PayloadBytes(mem, addr)[..StoredHeader(mem, addr).size - HEADER_SIZE]
  {
  }

  /** A tool image stored at the application address passes the corrected
      check, whatever its payload. */
  lemma StoredToolImageValid(version: u32, payload: seq<byte>)
    requires |payload| <= MAX_APP_SIZE
    ensures VerifyPayload(StoredAt(ToolImage(version, payload), APP_START_ADDR), APP_START_ADDR) == Valid
  {
    var h := ToolHeader(version, payload);
    var image := ToolImage(version, payload);
    var mem := StoredAt(image, APP_START_ADDR);
    assert image[..HEADER_SIZE] == Pack(h);
    ParsePack(h);
    ReadStored(image, APP_START_ADDR, 0, HEADER_SIZE);
    assert StoredHeader(mem, APP_START_ADDR) == h;
    ReadStored(image, APP_START_ADDR, HEADER_SIZE, |payload|);
    assert image[HEADER_SIZE..HEADER_SIZE + |payload|] == payload;
    assert PayloadBytes(mem, APP_START_ADDR) == payload;
  }

  // ---------------------------------------------------------------------
  // Installing the update
  // ---------------------------------------------------------------------

  /** `mem` with `image` written from the application address on. */
  function Install(mem: Memory, image: seq<byte>): Memory
    requires APP_START_ADDR + |image| < U32_LIMIT
  {
    (a: u32) => if APP_START_ADDR <= a < APP_START_ADDR + |image| then image[a - APP_START_ADDR] else mem(a)
  }

  /** Reading installed bytes gives them back. */
  lemma ReadInstalled(mem: Memory, image: seq<byte>, off: nat, n: nat)
    requires APP_START_ADDR + |image| < U32_LIMIT && off + n <= |image|
    ensures ReadMemory(Install(mem, image), Add32(APP_START_ADDR, off), n) == image[off..off + n]
  {
    var s := ReadMemory(Install(mem, image), Add32(APP_START_ADDR, off), n);
    forall i | 0 <= i < n
      ensures s[i] == image[off + i]
    {
      assert ByteAt(Install(mem, image), Add32(APP_START_ADDR, off), i) == image[off + i];
    }
  }

  /** The header and payload an accepted session took off the line. */
  function ReceivedImage(link: Link, now: nat): (image: seq<byte>)
    requires ReceiveFirmware(link, now).outcome.Updated?
    ensures |image| == HEADER_SIZE + ReceiveFirmware(link, now).outcome.header.size
    ensures APP_START_ADDR + |image| < U32_LIMIT
  {
    SessionReports(link, now);
    SessionAccepts(link, now);
    Values(link[..HEADER_SIZE + ReceiveFirmware(link, now).outcome.header.size])
  }

  /** What the prompt and the session of a boot that accepts an update
      received. */
  function AcceptedImage(m: Machine): (image: seq<byte>)
    requires UpdateAccepted(m)
    ensures APP_START_ADDR + |image| < U32_LIMIT
  {
    var p := CheckForUpdate(m.link, m.now);
    ReceivedImage(p.rest, p.now)
  }

  /** `bootloader_main()` with both corrections: an accepted update is
      installed before the reboot, and the resident image is checked over
      its announced payload. */
  function CommitBootMain(m: Machine): (b: BootRun)
    ensures UpdateAccepted(m) ==> b.after.mem == Install(m.mem, AcceptedImage(m))
    ensures !UpdateAccepted(m) ==> b.after.mem == m.mem
    ensures b.halt == AwaitingReset <==> UpdateAccepted(m)
    ensures b.halt.Jumped? <==> !UpdateAccepted(m) && VerifyPayload(m.mem, APP_START_ADDR) == Valid
    ensures b.halt.Jumped? ==> b.halt.entry == APP_START_ADDR + HEADER_SIZE
    ensures b.halt == Recovering <==> !UpdateAccepted(m) && VerifyPayload(m.mem, APP_START_ADDR) != Valid
  {
    var p := CheckForUpdate(m.link, m.now);
    if !p.requested then BootPayload(m.mem, p.rest, p.now)
    else
      var s := ReceiveFirmware(p.rest, p.now);
      if s.outcome.Updated? then
        BootRun(AwaitingReset, Machine(Install(m.mem, AcceptedImage(m)), s.rest, s.now + REBOOT_DELAY_MS))
      else BootPayload(m.mem, s.rest, s.now)
  }

  /** `Bootloader.BootResident` with the corrected check. */
  function BootPayload(mem: Memory, link: Link, now: nat): (b: BootRun)
    ensures b.after.mem == mem && b.after.link == link && b.after.now >= now
    ensures !b.halt.AwaitingReset?
    ensures b.halt.Jumped? <==> VerifyPayload(mem, APP_START_ADDR) == Valid
    ensures b.halt.Jumped? ==> b.halt.entry == APP_START_ADDR + HEADER_SIZE
  {
    if VerifyPayload(mem, APP_START_ADDR) != Valid then BootRun(Recovering, Machine(mem, link, now))
    else BootRun(Jumped(EntryPoint(APP_START_ADDR)), Machine(mem, link, now + JUMP_DELAY_MS))
  }

  /** An image the session accepted, once installed, passes the corrected
      check: its header is the one received and its payload has the CRC-32
      that header states. */
  lemma ReceivedImageValid(mem: Memory, link: Link, now: nat)
    requires ReceiveFirmware(link, now).outcome.Updated?
    ensures VerifyPayload(Install(mem, ReceivedImage(link, now)), APP_START_ADDR) == Valid
  {
    var image := ReceivedImage(link, now);
    SessionReports(link, now);
    SessionAccepts(link, now);
    var h := LinkHeader(link);
    assert image[..HEADER_SIZE] == Values(link[..HEADER_SIZE]);
    assert image[HEADER_SIZE..] == Values(link[HEADER_SIZE..HEADER_SIZE + h.size]);
    InstalledImageValid(mem, image);
  }

  /** A well-formed image, once installed, passes the corrected check. */
  lemma InstalledImageValid(mem: Memory, image: seq<byte>)
    requires HEADER_SIZE <= |image| && APP_START_ADDR + |image| < U32_LIMIT
    requires var h := Parse(image[..HEADER_SIZE]);
      && h.magic == BOOT_MAGIC && h.size <= MAX_APP_SIZE && |image| == HEADER_SIZE + h.size
      && Crc32(image[HEADER_SIZE..]) == h.crc32
    ensures VerifyPayload(Install(mem, image), APP_START_ADDR) == Valid
  {
    var h := Parse(image[..HEADER_SIZE]);
    ReadInstalled(mem, image, 0, HEADER_SIZE);
    assert StoredHeader(Install(mem, image), APP_START_ADDR) == h;
    ReadInstalled(mem, image, HEADER_SIZE, h.size);
    assert image[HEADER_SIZE..HEADER_SIZE + h.size] == image[HEADER_SIZE..];
  }

  /** An accepted update is what the next boot runs: after the reset, unless
      another update is accepted, the corrected bootloader jumps to it. */
  lemma InstalledUpdateBoots(m: Machine, link: Link, now: nat)
    requires UpdateAccepted(m)
    requires !UpdateAccepted(Machine(CommitBootMain(m).after.mem, link, now))
    ensures CommitBootMain(Machine(CommitBootMain(m).after.mem, link, now)).halt
            == Jumped(APP_START_ADDR + HEADER_SIZE)
  {
    var p := CheckForUpdate(m.link, m.now);
    ReceivedImageValid(m.mem, p.rest, p.now);
  }

  /** The counterpart of `Bootloader.UpdateNotInstalled`: with the
      corrections, the blank board that accepts the valid empty image boots
      it after the reset. */
  lemma EmptyUpdateInstalled()
    ensures var b := CommitBootMain(Machine(Blank(), EmptyUpdateLine(), 0));
      && b.halt == AwaitingReset
      && CommitBootMain(Machine(b.after.mem, [], 0)).halt == Jumped(APP_START_ADDR + HEADER_SIZE)
  {
    var m := Machine(Blank(), EmptyUpdateLine(), 0);
    EmptyUpdateAccepted();
    var mem := CommitBootMain(m).after.mem;
    assert !UpdateAccepted(Machine(mem, [], 0));
    InstalledUpdateBoots(m, [], 0);
  }
}
