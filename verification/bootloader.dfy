/** The UART bootloader: the resident-image check, the streaming update
    session, the update prompt and the boot decision.

    Peripherals are replaced by the abstract serial link and millisecond
    clock of `Transport`, and the address space by a total map from 32-bit
    addresses to bytes.  Flash programming is only simulated by the
    firmware, so nothing here ever writes memory: an accepted update leaves
    the application region as it was.  `Intended` gives the bootloader that
    installs the update and checks the payload the header announces. */
module Bootloader {
  import opened Wrappers
  import opened Bits
  import opened Bytes
  import opened Crc
  import opened Transport
  import opened Image

  /** Update-prompt window, in milliseconds. */
  const TIMEOUT_MS: nat := 3000
  /** Timeout for the header of an update. */
  const HEADER_TIMEOUT_MS: nat := 30000
  /** Timeout for each payload chunk. */
  const CHUNK_TIMEOUT_MS: nat := 5000
  /** Size of the receive buffer, and so of the largest chunk. */
  const CHUNK_SIZE: nat := 128
  /** Pause between two attempts of the recovery loop. */
  const RECOVERY_DELAY_MS: nat := 1000
  /** Pause before the simulated reboot after a successful update. */
  const REBOOT_DELAY_MS: nat := 2000
  /** Pause before jumping to the application. */
  const JUMP_DELAY_MS: nat := 100

  // ---------------------------------------------------------------------
  // Memory and 32-bit address arithmetic
  // ---------------------------------------------------------------------

  /** The byte at every 32-bit address. */
  type Memory = u32 -> byte

  /** `a + b` on `uint32_t`. */
  function Add32(a: u32, b: u32): (r: u32)
    ensures r == if a + b < U32_LIMIT then a + b else a + b - U32_LIMIT
  {
    var s: int := a + b;
    DivUnique(s, U32_LIMIT, if s < U32_LIMIT then 0 else 1, if s < U32_LIMIT then s else s - U32_LIMIT);
    s % U32_LIMIT
  }

  /** `a - b` on `uint32_t`: wraps below zero. */
  function Sub32(a: u32, b: u32): (r: u32)
    ensures r == if a >= b then a - b else a - b + U32_LIMIT
  {
    var d: int := a - b;
    DivUnique(d, U32_LIMIT, if d >= 0 then 0 else -1, if d >= 0 then d else d + U32_LIMIT);
    d % U32_LIMIT
  }

  function ByteAt(mem: Memory, addr: u32, i: nat): byte
  {
    mem(Add32(addr, i % U32_LIMIT))
  }

  /** The `n` bytes from `addr` on, the address wrapping at 2^32. */
  function ReadMemory(mem: Memory, addr: u32, n: nat): (s: seq<byte>)
    ensures |s| == n
  {
    seq(n, (i: int) requires 0 <= i < n => ByteAt(mem, addr, i))
  }

  // ---------------------------------------------------------------------
  // verify_application and the entry point
  // ---------------------------------------------------------------------

  /** Why `verify_application` refuses an image, or that it accepts it. */
  datatype Verdict =
    | Valid
    | NoMagic(magic: u32)
    | Oversized(size: u32)
    | CrcFailed(expected: u32, computed: u32)

  /** The header `verify_application` reads at `addr`. */
  function StoredHeader(mem: Memory, addr: u32): Header
  {
    Parse(ReadMemory(mem, addr, HEADER_SIZE))
  }

  /** The bytes `verify_application` checksums: `size - 20` of them in
      `uint32_t` arithmetic, starting right after the header. */
  function CheckedBytes(mem: Memory, addr: u32): seq<byte>
  {
    ReadMemory(mem, Add32(addr, HEADER_SIZE), Sub32(StoredHeader(mem, addr).size, HEADER_SIZE))
  }

  /** `verify_application(addr)`: the magic number first, then the size cap,
      then the CRC-32 of the bytes after the header against the stored one. */
  function VerifyApplication(mem: Memory, addr: u32): (v: Verdict)
    ensures var h := StoredHeader(mem, addr);
      && (v.NoMagic? <==> h.magic != BOOT_MAGIC)
      && (v.Oversized? <==> h.magic == BOOT_MAGIC && h.size > MAX_APP_SIZE)
      && (v.CrcFailed? ==> v.expected == h.crc32 && v.computed == Crc32(CheckedBytes(mem, addr)))
      && (v == Valid <==> h.magic == BOOT_MAGIC && h.size <= MAX_APP_SIZE
                          && Crc32(CheckedBytes(mem, addr)) == h.crc32)
  {
    var h := StoredHeader(mem, addr);
    if h.magic != BOOT_MAGIC then NoMagic(h.magic)
    else if h.size > MAX_APP_SIZE then Oversized(h.size)
    else
      var crc := TableCrc32(CheckedBytes(mem, addr));
      TableCrcIsCrc32(CheckedBytes(mem, addr));
      if crc != h.crc32 then CrcFailed(h.crc32, crc) else Valid
  }

  /** How many bytes `verify_application` checksums for a stored `size`: the
      difference when `size` is at least the header length, and otherwise a
      wrapped-around count of more than four thousand million. */
  lemma CheckedLength(mem: Memory, addr: u32)
    ensures var size := StoredHeader(mem, addr).size;
      |CheckedBytes(mem, addr)| == if size >= HEADER_SIZE then size - HEADER_SIZE
                                   else U32_LIMIT - HEADER_SIZE + size
  {
  }

  /** `jump_to_application(addr)` enters the code right after the header. */
  function EntryPoint(addr: u32): u32
  {
    Add32(addr, HEADER_SIZE)
  }

  // ---------------------------------------------------------------------
  // receive_firmware
  // ---------------------------------------------------------------------

  /** The length of the next chunk: the buffer size or what remains. */
  function ChunkLength(remaining: nat): (n: nat)
    ensures remaining > 0 ==> 0 < n <= CHUNK_SIZE && n <= remaining
  {
    if remaining > CHUNK_SIZE then CHUNK_SIZE else remaining
  }

  /** The payload loop's result: the CRC register after every payload byte,
      or a chunk that timed out; with the rest of the line and the clock. */
  datatype PayloadEnd =
    | Complete(crc: u32, rest: Link, now: nat)
    | Stalled(rest: Link, now: nat)

  /** The payload loop of `receive_firmware` from the point where `remaining`
      bytes are still due and the register holds `crc`.  Each chunk is
      received under its own timeout: when all its bytes are ready by the
      deadline they are folded into the register and the clock reads the
      moment the last of them was read; otherwise the receive times out and
      the loop stops where the timed-out receive left the line and the
      clock. */
  function ReceivePayload(link: Link, now: nat, remaining: nat, crc: u32): PayloadEnd
    decreases remaining
  {
    if remaining == 0 then Complete(crc, link, now)
    else
      var n := ChunkLength(remaining);
      if ArrivesBy(link, n, now + CHUNK_TIMEOUT_MS) then
        ReceivePayload(link[n..], Latest(now, link[..n]), remaining - n, FoldTable(crc, Values(link[..n])))
      else
        var late := Receive(link, now, n, CHUNK_TIMEOUT_MS);
        Stalled(late.rest, late.now)
  }

  /** Every chunk of a `remaining`-byte payload arrives within five seconds
      of the moment the previous one was complete. */
  predicate ChunksOnTime(link: Link, now: nat, remaining: nat)
    decreases remaining
  {
    remaining == 0
    || (var n := ChunkLength(remaining);
        ArrivesBy(link, n, now + CHUNK_TIMEOUT_MS)
        && ChunksOnTime(link[n..], Latest(now, link[..n]), remaining - n))
  }

  /** One chunk of the on-time condition. */
  lemma OnTimeStep(link: Link, now: nat, remaining: nat)
    requires remaining > 0
    ensures var n := ChunkLength(remaining);
      ChunksOnTime(link, now, remaining)
      <==> ArrivesBy(link, n, now + CHUNK_TIMEOUT_MS) && ChunksOnTime(link[n..], Latest(now, link[..n]), remaining - n)
  {
  }

  /** The payload loop completes exactly when every chunk is on time. */
  lemma PayloadCompletes(link: Link, now: nat, remaining: nat, crc: u32)
    ensures ReceivePayload(link, now, remaining, crc).Complete? <==> ChunksOnTime(link, now, remaining)
  {
    if ChunksOnTime(link, now, remaining) {
      OnTimeCompletes(link, now, remaining, crc);
    } else {
      LateStalls(link, now, remaining, crc);
    }
  }

  /** Chunks that all meet their deadlines complete the loop. */
  lemma {:induction false} OnTimeCompletes(link: Link, now: nat, remaining: nat, crc: u32)
    requires ChunksOnTime(link, now, remaining)
    ensures ReceivePayload(link, now, remaining, crc).Complete?
    decreases remaining
  {
    if remaining > 0 {
      var n := ChunkLength(remaining);
      OnTimeStep(link, now, remaining);
      OnTimeCompletes(link[n..], Latest(now, link[..n]), remaining - n, FoldTable(crc, Values(link[..n])));
    }
  }

  /** A chunk that misses its deadline stalls the loop. */
  lemma {:induction false} LateStalls(link: Link, now: nat, remaining: nat, crc: u32)
    requires !ChunksOnTime(link, now, remaining)
    ensures ReceivePayload(link, now, remaining, crc).Stalled?
    decreases remaining
  {
    var n := ChunkLength(remaining);
    OnTimeStep(link, now, remaining);
    if ArrivesBy(link, n, now + CHUNK_TIMEOUT_MS) {
      LateStalls(link[n..], Latest(now, link[..n]), remaining - n, FoldTable(crc, Values(link[..n])));
    }
  }

  /** A completed payload loop has consumed exactly the payload, and its
      register is the register of folding the whole payload at once. */
  lemma {:induction false} PayloadFolded(link: Link, now: nat, remaining: nat, crc: u32)
    requires ReceivePayload(link, now, remaining, crc).Complete?
    ensures remaining <= |link|
    ensures ReceivePayload(link, now, remaining, crc).rest == link[remaining..]
    ensures ReceivePayload(link, now, remaining, crc).crc == FoldTable(crc, Values(link[..remaining]))
    decreases remaining
  {
    if remaining == 0 {
      assert Values(link[..0]) == [];
    } else {
      var n := ChunkLength(remaining);
      PayloadFolded(link[n..], Latest(now, link[..n]), remaining - n, FoldTable(crc, Values(link[..n])));
      ChunkSplit(link, n, remaining);
      FoldTableAppend(crc, Values(link[..n]), Values(link[n..][..remaining - n]));
    }
  }

  lemma ChunkSplit(link: Link, n: nat, remaining: nat)
    requires n <= remaining && n <= |link| && remaining - n <= |link| - n
    ensures link[n..][remaining - n..] == link[remaining..]
    ensures Values(link[..remaining]) == Values(link[..n]) + Values(link[n..][..remaining - n])
  {
    assert link[..remaining] == link[..n] + link[n..][..remaining - n];
  }

  /** Why an update session fails. */
  datatype Failure =
    | HeaderTimeout
    | InvalidMagic(magic: u32)
    | FirmwareTooLarge(size: u32)
    | DataTimeout
    | CrcMismatch(expected: u32, computed: u32)

  datatype Outcome = Updated(header: Header) | Failed(why: Failure)

  /** A finished session: its outcome, the rest of the line and the clock. */
  datatype SessionEnd = SessionEnd(outcome: Outcome, rest: Link, now: nat)

  /** `receive_firmware()` started at millisecond `now`: the header under
      its 30 s timeout, then the checks and the payload. */
  function ReceiveFirmware(link: Link, now: nat): SessionEnd
  {
    var got := Receive(link, now, HEADER_SIZE, HEADER_TIMEOUT_MS);
    if got.TimedOut? then SessionEnd(Failed(HeaderTimeout), got.rest, got.now)
    else CheckedSession(Parse(got.data), got.rest, got.now)
  }

  /** The rest of `receive_firmware()` once header `h` is in: the magic and
      size checks, the payload loop from the all-ones preset, and the compare
      of the complemented register with the header's CRC. */
  function CheckedSession(h: Header, rest: Link, now: nat): SessionEnd
  {
    if h.magic != BOOT_MAGIC then SessionEnd(Failed(InvalidMagic(h.magic)), rest, now)
    else if h.size > MAX_APP_SIZE then SessionEnd(Failed(FirmwareTooLarge(h.size)), rest, now)
    else
      var p := ReceivePayload(rest, now, h.size, ALL_ONES);
      if p.Stalled? then SessionEnd(Failed(DataTimeout), p.rest, p.now)
      else if Complement(p.crc) != h.crc32 then
        SessionEnd(Failed(CrcMismatch(h.crc32, Complement(p.crc))), p.rest, p.now)
      else SessionEnd(Updated(h), p.rest, p.now)
  }

  /** The header on the line, once its 20 bytes are there. */
  function LinkHeader(link: Link): Header
    requires |link| >= HEADER_SIZE
  {
    Parse(Values(link[..HEADER_SIZE]))
  }

  /** The header phase: when the 20 header bytes arrive in time the session
      goes on with the header they spell, the line after them and the clock
      at the last of them. */
  lemma HeaderPhase(link: Link, now: nat)
    ensures ArrivesBy(link, HEADER_SIZE, now + HEADER_TIMEOUT_MS) ==>
      ReceiveFirmware(link, now)
      == CheckedSession(LinkHeader(link), link[HEADER_SIZE..], Latest(now, link[..HEADER_SIZE]))
  {
    if ArrivesBy(link, HEADER_SIZE, now + HEADER_TIMEOUT_MS) {
      ReceivedBytes(link, now, HEADER_SIZE, now + HEADER_TIMEOUT_MS);
      ReceivedClock(link, now, HEADER_SIZE, now + HEADER_TIMEOUT_MS);
    }
  }

  /** The checked phase accepts exactly a good header followed, chunk by
      chunk in time, by `size` bytes whose CRC-32 is the header's; it then
      reports that header and leaves the line after the payload. */
  lemma CheckedAccepts(h: Header, rest: Link, now: nat)
    ensures var s := CheckedSession(h, rest, now);
      && (s.outcome.Updated? <==>
            && h.magic == BOOT_MAGIC && h.size <= MAX_APP_SIZE && h.size <= |rest|
            && ChunksOnTime(rest, now, h.size)
            && Crc32(Values(rest[..h.size])) == h.crc32)
      && (s.outcome.Updated? ==> s.outcome.header == h && s.rest == rest[h.size..])
  {
    if h.magic == BOOT_MAGIC && h.size <= MAX_APP_SIZE {
      PayloadCompletes(rest, now, h.size, ALL_ONES);
      if ReceivePayload(rest, now, h.size, ALL_ONES).Complete? {
        PayloadFolded(rest, now, h.size, ALL_ONES);
        TableCrcIsCrc32(Values(rest[..h.size]));
      }
    }
  }

  /** What the line must carry, and when, for a session to succeed: the
      header within 30 s, a valid magic number, a size within the cap, every
      chunk of `size` payload bytes within 5 s of the previous one, and a
      payload whose CRC-32 is the one in the header. */
  predicate Deliverable(link: Link, now: nat)
  {
    && ArrivesBy(link, HEADER_SIZE, now + HEADER_TIMEOUT_MS)
    && var h := LinkHeader(link);
    && h.magic == BOOT_MAGIC
    && h.size <= MAX_APP_SIZE
    && HEADER_SIZE + h.size <= |link|
    && ChunksOnTime(link[HEADER_SIZE..], Latest(now, link[..HEADER_SIZE]), h.size)
    && Crc32(Values(link[HEADER_SIZE..HEADER_SIZE + h.size])) == h.crc32
  }

  /** A session accepts an update exactly when the line delivers one. */
  lemma SessionAccepts(link: Link, now: nat)
    ensures ReceiveFirmware(link, now).outcome.Updated? <==> Deliverable(link, now)
  {
    HeaderPhase(link, now);
    if ArrivesBy(link, HEADER_SIZE, now + HEADER_TIMEOUT_MS) {
      HeaderAccepts(link, now);
    } else {
      HeaderTimesOut(link, now);
    }
  }

  /** Once the header is in on time, the rest of the session accepts
      exactly when the line delivers an update. */
  lemma HeaderAccepts(link: Link, now: nat)
    requires ArrivesBy(link, HEADER_SIZE, now + HEADER_TIMEOUT_MS)
    ensures CheckedSession(LinkHeader(link), link[HEADER_SIZE..], Latest(now, link[..HEADER_SIZE])).outcome.Updated?
      <==> Deliverable(link, now)
  {
    var h := LinkHeader(link);
    var rest := link[HEADER_SIZE..];
    CheckedAccepts(h, rest, Latest(now, link[..HEADER_SIZE]));
    if h.size <= |rest| {
      assert rest[..h.size] == link[HEADER_SIZE..HEADER_SIZE + h.size];
    }
  }

  /** An accepted update reports the header that was sent and leaves the
      line right after the payload. */
  lemma SessionReports(link: Link, now: nat)
    requires ReceiveFirmware(link, now).outcome.Updated?
    ensures var s := ReceiveFirmware(link, now);
      && HEADER_SIZE + s.outcome.header.size <= |link|
      && s.outcome.header == LinkHeader(link)
      && s.rest == link[HEADER_SIZE + s.outcome.header.size..]
  {
    HeaderPhase(link, now);
    var h := LinkHeader(link);
    var rest := link[HEADER_SIZE..];
    CheckedAccepts(h, rest, Latest(now, link[..HEADER_SIZE]));
    assert rest[h.size..] == link[HEADER_SIZE + h.size..];
  }

  /** A bad magic number or an oversized header ends the session before any
      payload byte is read: exactly the 20 header bytes are gone. */
  lemma RejectsBeforePayload(link: Link, now: nat)
    requires ReceiveFirmware(link, now).outcome.Failed?
    requires ReceiveFirmware(link, now).outcome.why.InvalidMagic?
          || ReceiveFirmware(link, now).outcome.why.FirmwareTooLarge?
    ensures |link| >= HEADER_SIZE
    ensures ReceiveFirmware(link, now).rest == link[HEADER_SIZE..]
    ensures ReceiveFirmware(link, now).now == Latest(now, link[..HEADER_SIZE])
  {
    ReceivedBytes(link, now, HEADER_SIZE, now + HEADER_TIMEOUT_MS);
    ReceivedClock(link, now, HEADER_SIZE, now + HEADER_TIMEOUT_MS);
  }

  /** The header timeout fires exactly when the 20 header bytes are not all
      there within 30 s, and the session then ends 30 s and one millisecond
      after it started. */
  lemma HeaderTimesOut(link: Link, now: nat)
    ensures var s := ReceiveFirmware(link, now);
      && (s.outcome == Failed(HeaderTimeout) <==> !ArrivesBy(link, HEADER_SIZE, now + HEADER_TIMEOUT_MS))
      && (s.outcome == Failed(HeaderTimeout) ==> s.now == now + HEADER_TIMEOUT_MS + 1)
  {
  }

  /** Time only moves forward during the payload loop. */
  lemma {:induction false} PayloadClock(link: Link, now: nat, remaining: nat, crc: u32)
    ensures ReceivePayload(link, now, remaining, crc).now >= now
    decreases remaining
  {
    if remaining > 0 {
      var n := ChunkLength(remaining);
      if ArrivesBy(link, n, now + CHUNK_TIMEOUT_MS) {
        LatestNotEarlier(now, link[..n]);
        PayloadClock(link[n..], Latest(now, link[..n]), remaining - n, FoldTable(crc, Values(link[..n])));
      }
    }
  }

  /** Time only moves forward during a session. */
  lemma SessionClock(link: Link, now: nat)
    ensures ReceiveFirmware(link, now).now >= now
  {
    var got := Receive(link, now, HEADER_SIZE, HEADER_TIMEOUT_MS);
    if got.Got? {
      var h := Parse(got.data);
      ReceivedAt(link, now, HEADER_SIZE, now + HEADER_TIMEOUT_MS);
      PayloadClock(got.rest, got.now, h.size, ALL_ONES);
    }
  }

  /** `receive_firmware` as the firmware runs it: the header through the
      polling receiver, then the checked phase.  It ends exactly as the
      session function says. */
  method StreamFirmware(link: Link, now: nat, cache: TableCache) returns (s: SessionEnd, cache': TableCache)
    requires Consistent(cache)
    ensures s == ReceiveFirmware(link, now)
    ensures Consistent(cache')
  {
    var got := ReceiveBytes(link, now, HEADER_SIZE, HEADER_TIMEOUT_MS);
    if got.TimedOut? {
      return SessionEnd(Failed(HeaderTimeout), got.rest, got.now), cache;
    }
    s, cache' := StreamChecked(Parse(got.data), got.rest, got.now, cache);
  }

  /** The checks on header `h`, the payload loop and the final compare. */
  method StreamChecked(h: Header, link: Link, now: nat, cache: TableCache) returns (s: SessionEnd, cache': TableCache)
    requires Consistent(cache)
    ensures s == CheckedSession(h, link, now)
    ensures Consistent(cache')
  {
    if h.magic != BOOT_MAGIC {
      return SessionEnd(Failed(InvalidMagic(h.magic)), link, now), cache;
    }
    if h.size > MAX_APP_SIZE {
      return SessionEnd(Failed(FirmwareTooLarge(h.size)), link, now), cache;
    }
    cache' := InitTable(cache);
    var p := StreamPayload(link, now, h.size, cache');
    if p.Stalled? {
      return SessionEnd(Failed(DataTimeout), p.rest, p.now), cache';
    }
    var crc := Complement(p.crc);
    if crc != h.crc32 {
      return SessionEnd(Failed(CrcMismatch(h.crc32, crc)), p.rest, p.now), cache';
    }
    return SessionEnd(Updated(h), p.rest, p.now), cache';
  }

  /** The payload loop: chunks of at most 128 bytes into the buffer, each
      under its own 5 s timeout and folded into the register from the
      all-ones preset. */
  method StreamPayload(link: Link, now: nat, size: nat, cache: TableCache) returns (p: PayloadEnd)
    requires Consistent(cache) && cache.initialized
    ensures p == ReceivePayload(link, now, size, ALL_ONES)
  {
    var remaining: nat := size;
    var crc: u32 := ALL_ONES;
    var pending := link;
    var clock := now;
    while remaining > 0
      invariant ReceivePayload(link, now, size, ALL_ONES) == ReceivePayload(pending, clock, remaining, crc)
      decreases remaining
    {
      var chunk := ChunkLength(remaining);
      var r;
      r, crc := PayloadPass(pending, clock, remaining, crc, cache);
      if r.TimedOut? {
        return Stalled(r.rest, r.now);
      }
      remaining := remaining - chunk;
      pending := r.rest;
      clock := r.now;
    }
    return Complete(crc, pending, clock);
  }

  /** One pass of the payload loop: receive the next chunk under its
      timeout and, when it came, fold it into the register. */
  method PayloadPass(pending: Link, clock: nat, remaining: nat, crc: u32, cache: TableCache)
    returns (r: Reception, crc': u32)
    requires remaining > 0 && Consistent(cache) && cache.initialized
    ensures r.TimedOut? ==> ReceivePayload(pending, clock, remaining, crc) == Stalled(r.rest, r.now)
    ensures r.Got? ==> ReceivePayload(pending, clock, remaining, crc)
                       == ReceivePayload(r.rest, r.now, remaining - ChunkLength(remaining), crc')
  {
    r := ReceiveBytes(pending, clock, ChunkLength(remaining), CHUNK_TIMEOUT_MS);
    PayloadUnfold(pending, clock, remaining, crc);
    crc' := crc;
    if r.Got? {
      crc' := FoldChunk(cache, crc, r.data);
    }
  }

  /** One pass of the payload loop as the firmware makes it: receive the
      next chunk under its timeout, stop if that times out, otherwise fold
      the bytes received and go on with the line and clock the receive left.
      That is what `ReceivePayload` says. */
  lemma PayloadUnfold(link: Link, now: nat, remaining: nat, crc: u32)
    requires remaining > 0
    ensures var got := Receive(link, now, ChunkLength(remaining), CHUNK_TIMEOUT_MS);
      ReceivePayload(link, now, remaining, crc)
      == if got.TimedOut? then Stalled(got.rest, got.now)
         else ReceivePayload(got.rest, got.now, remaining - ChunkLength(remaining), FoldTable(crc, got.data))
  {
    var n := ChunkLength(remaining);
    if ArrivesBy(link, n, now + CHUNK_TIMEOUT_MS) {
      ReceivedBytes(link, now, n, now + CHUNK_TIMEOUT_MS);
      ReceivedClock(link, now, n, now + CHUNK_TIMEOUT_MS);
    }
  }

  /** The inline per-byte update of `receive_firmware` over one chunk. */
  method FoldChunk(cache: TableCache, crc: u32, data: seq<byte>) returns (c: u32)
    requires Consistent(cache) && cache.initialized
    ensures c == FoldTable(crc, data)
  {
    c := crc;
    for i := 0 to |data|
      invariant c == FoldTable(crc, data[..i])
    {
      assert data[..i + 1][..i] == data[..i];
      c := XorWord(cache.table[XorWord(c, data[i]) % 0x100], c / 0x100);
    }
    assert data[..|data|] == data;
  }

  // ---------------------------------------------------------------------
  // check_for_update_request
  // ---------------------------------------------------------------------

  /** The update prompt's result, the rest of the line and the clock. */
  datatype Prompt = Prompt(requested: bool, rest: Link, now: nat)

  /** `check_for_update_request()` started at millisecond `now`: the first
      byte that becomes ready within the 3 s window is consumed and decides;
      'U' or 'u' asks for an update and anything else skips to booting.  With
      no byte in the window the prompt ends after 3 s with nothing consumed. */
  function CheckForUpdate(link: Link, now: nat): (p: Prompt)
    ensures p.requested <==> |link| > 0 && link[0].at < now + TIMEOUT_MS
                             && (link[0].value == 'U' as int || link[0].value == 'u' as int)
    ensures p.rest == if |link| > 0 && link[0].at < now + TIMEOUT_MS then link[1..] else link
    ensures now <= p.now <= now + TIMEOUT_MS
  {
    if |link| > 0 && link[0].at < now + TIMEOUT_MS then
      Prompt(link[0].value == 0x55 || link[0].value == 0x75, link[1..], Later(now, link[0].at))
    else Prompt(false, link, now + TIMEOUT_MS)
  }

  /** The prompt's polling loop, one millisecond at a time until 3000 ms have
      passed. */
  method CheckForUpdateRequest(link: Link, start: nat) returns (p: Prompt)
    ensures p == CheckForUpdate(link, start)
  {
    var now := start;
    while now - start < TIMEOUT_MS
      invariant start <= now <= start + TIMEOUT_MS
      invariant now == start || |link| == 0 || link[0].at >= now
      decreases start + TIMEOUT_MS - now
    {
      if |link| > 0 && link[0].at <= now {
        var c := link[0].value;
        return Prompt(c == 'U' as int || c == 'u' as int, link[1..], now);
      }
      now := now + 1;
    }
    return Prompt(false, link, now);
  }

  // ---------------------------------------------------------------------
  // bootloader_main
  // ---------------------------------------------------------------------

  /** Where `bootloader_main` ends up: in the application, spinning after a
      successful update until someone resets the board, or in the endless
      recovery loop. */
  datatype Halt = Jumped(entry: u32) | AwaitingReset | Recovering

  /** Memory, the serial line and the clock. */
  datatype Machine = Machine(mem: Memory, link: Link, now: nat)

  datatype BootRun = BootRun(halt: Halt, after: Machine)

  /** Whether the prompt and the update session that may follow it end in an
      accepted update. */
  predicate UpdateAccepted(m: Machine)
  {
    var p := CheckForUpdate(m.link, m.now);
    p.requested && ReceiveFirmware(p.rest, p.now).outcome.Updated?
  }

  /** `bootloader_main()`: the prompt, an update session if asked for, then
      the check of the resident image and either the jump to its entry point
      or the recovery loop.  No path writes memory. */
  function BootMain(m: Machine): (b: BootRun)
    ensures b.after.mem == m.mem
    ensures b.halt == AwaitingReset <==> UpdateAccepted(m)
    ensures b.halt.Jumped? <==> !UpdateAccepted(m) && VerifyApplication(m.mem, APP_START_ADDR) == Valid
    ensures b.halt.Jumped? ==> b.halt.entry == APP_START_ADDR + HEADER_SIZE
    ensures b.halt == Recovering <==> !UpdateAccepted(m) && VerifyApplication(m.mem, APP_START_ADDR) != Valid
  {
    var p := CheckForUpdate(m.link, m.now);
    if !p.requested then BootResident(m.mem, p.rest, p.now)
    else
      var s := ReceiveFirmware(p.rest, p.now);
      if s.outcome.Updated? then BootRun(AwaitingReset, Machine(m.mem, s.rest, s.now + REBOOT_DELAY_MS))
      else BootResident(m.mem, s.rest, s.now)
  }

  /** The second half of `bootloader_main()`, once no update was accepted:
      the jump to a valid resident image, or the recovery loop. */
  function BootResident(mem: Memory, link: Link, now: nat): (b: BootRun)
    ensures b.after.mem == mem && b.after.link == link && b.after.now >= now
    ensures !b.halt.AwaitingReset?
    ensures b.halt.Jumped? <==> VerifyApplication(mem, APP_START_ADDR) == Valid
    ensures b.halt.Jumped? ==> b.halt.entry == APP_START_ADDR + HEADER_SIZE
  {
    if VerifyApplication(mem, APP_START_ADDR) != Valid then BootRun(Recovering, Machine(mem, link, now))
    else BootRun(Jumped(EntryPoint(APP_START_ADDR)), Machine(mem, link, now + JUMP_DELAY_MS))
  }

  /** The first `n` rounds of the recovery loop: a full update session and a
      one-second pause each, whatever the session's outcome.  Memory is never
      touched, and each round takes at least the pause. */
  function Recovery(m: Machine, n: nat): (r: (seq<Outcome>, Machine))
    ensures |r.0| == n
    ensures r.1.mem == m.mem
    ensures r.1.now >= m.now + RECOVERY_DELAY_MS * n
    decreases n
  {
    if n == 0 then ([], m)
    else
      var (outcomes, m1) := Recovery(m, n - 1);
      var s := ReceiveFirmware(m1.link, m1.now);
      SessionClock(m1.link, m1.now);
      (outcomes + [s.outcome], Machine(m1.mem, s.rest, s.now + RECOVERY_DELAY_MS))
  }

  /** Round `n + 1` of the recovery loop keeps the outcomes of the first `n`
      rounds, accepts an update exactly when the line the first `n` rounds
      left is deliverable, reports that line's header when it does, and ends
      at least one pause after round `n` ended. */
  lemma RecoveryRound(m: Machine, n: nat)
    ensures Recovery(m, n + 1).0[..n] == Recovery(m, n).0
    ensures var m1 := Recovery(m, n).1;
      && (Recovery(m, n + 1).0[n].Updated? <==> Deliverable(m1.link, m1.now))
      && (Recovery(m, n + 1).0[n].Updated? ==>
            HEADER_SIZE <= |m1.link| && Recovery(m, n + 1).0[n].header == LinkHeader(m1.link))
    ensures Recovery(m, n + 1).1.now >= Recovery(m, n).1.now + RECOVERY_DELAY_MS
  {
    var m1 := Recovery(m, n).1;
    SessionAccepts(m1.link, m1.now);
    SessionClock(m1.link, m1.now);
    if ReceiveFirmware(m1.link, m1.now).outcome.Updated? {
      SessionReports(m1.link, m1.now);
    }
  }

  /** Every byte of `bytes`, all ready from millisecond `at` on. */
  function Stream(bytes: seq<byte>, at: nat): (link: Link)
    ensures Values(link) == bytes
    ensures forall i | 0 <= i < |link| :: link[i].at == at
  {
    seq(|bytes|, i requires 0 <= i < |bytes| => Arrival(at, bytes[i]))
  }

  /** Memory that holds zero everywhere. */
  function Blank(): Memory
  {
    (a: u32) => 0
  }

  /** A valid empty image, sent right after the update request. */
  function EmptyUpdateLine(): Link
  {
    [Arrival(0, 'U' as int)] + Stream(Pack(Header(BOOT_MAGIC, 0, 0, 0, 0)), 0)
  }

  /** An accepted update is not installed: a board with no image that
      accepts a valid empty image still has no image after the reset, and so
      ends in the recovery loop. */
  lemma UpdateNotInstalled()
    ensures var b := BootMain(Machine(Blank(), EmptyUpdateLine(), 0));
      && b.halt == AwaitingReset
      && BootMain(Machine(b.after.mem, [], 0)).halt == Recovering
  {
    EmptyUpdateAccepted();
    BlankInvalid();
    assert !UpdateAccepted(Machine(Blank(), [], 0));
  }

  /** The bootloader accepts the valid empty image. */
  lemma EmptyUpdateAccepted()
    ensures UpdateAccepted(Machine(Blank(), EmptyUpdateLine(), 0))
  {
    var h := Header(BOOT_MAGIC, 0, 0, 0, 0);
    var rest := Stream(Pack(h), 0);
    var p := CheckForUpdate(EmptyUpdateLine(), 0);
    assert p.rest == rest;
    ParsePack(h);
    assert rest[..HEADER_SIZE] == rest;
    assert LinkHeader(rest) == h;
    Crc32Empty();
    assert Values(rest[HEADER_SIZE..HEADER_SIZE]) == [];
    SessionAccepts(rest, p.now);
  }

  /** Blank memory holds no valid image. */
  lemma BlankInvalid()
    ensures VerifyApplication(Blank(), APP_START_ADDR) != Valid
  {
    var zeros := ReadMemory(Blank(), APP_START_ADDR, HEADER_SIZE);
    assert zeros[0..4] == [0, 0, 0, 0];
  }

}
