/** How the host tools' images fare on the bootloader.  The tools write a
    header whose `size` is the payload length, and the bootloader's session
    reads exactly that many bytes after the header, so a tool image sent
    over the line is accepted.  The resident-image check, however, checksums
    `size - 20` bytes after the header; a tool image stored at the
    application address therefore passes only when dropping its last 20 bytes
    leaves the checksum unchanged.  The other reading of `size`, the whole
    image with its header, passes the resident-image check but stalls the
    session, which waits for 20 bytes more than are sent. */
module Interop {
  import opened Bytes
  import opened Crc
  import opened Image
  import opened Transport
  import opened Bootloader
  import opened UploadTool

  // ---------------------------------------------------------------------
  // Over the line
  // ---------------------------------------------------------------------

  /** Bytes that are all ready at `now` meet every chunk deadline. */
  lemma {:induction false} ReadyOnTime(link: Link, now: nat, remaining: nat)
    requires remaining <= |link|
    requires forall i | 0 <= i < |link| :: link[i].at <= now
    ensures ChunksOnTime(link, now, remaining)
    decreases remaining
  {
    if remaining > 0 {
      var n := ChunkLength(remaining);
      LatestOfReady(now, link[..n]);
      assert forall i | 0 <= i < |link| - n :: link[n..][i] == link[n + i];
      ReadyOnTime(link[n..], now, remaining - n);
      OnTimeStep(link, now, remaining);
    }
  }

  /** Every chunk deadline met means the line carries the whole payload. */
  lemma {:induction false} OnTimeNeedsBytes(link: Link, now: nat, remaining: nat)
    requires ChunksOnTime(link, now, remaining)
    ensures remaining <= |link|
    decreases remaining
  {
    if remaining > 0 {
      var n := ChunkLength(remaining);
      OnTimeStep(link, now, remaining);
      OnTimeNeedsBytes(link[n..], Latest(now, link[..n]), remaining - n);
    }
  }

  /** The image both tools write for `payload` with version word `version`. */
  function ToolImage(version: u32, payload: seq<byte>): (image: seq<byte>)
    requires |payload| < U32_LIMIT
    ensures |image| == HEADER_SIZE + |payload|
  {
    Pack(ToolHeader(version, payload)) + payload
  }

  /** A tool image of a payload within the size cap, sent in full before the
      session starts, is accepted with the header the tool wrote. */
  lemma ToolImageAccepted(version: u32, payload: seq<byte>, at: nat, now: nat)
    requires |payload| <= MAX_APP_SIZE && at <= now
    ensures ReceiveFirmware(Stream(ToolImage(version, payload), at), now).outcome
            == Updated(ToolHeader(version, payload))
  {
    var link := Stream(ToolImage(version, payload), at);
    ToolImageDeliverable(version, payload, at, now);
    SessionAccepts(link, now);
    SessionReports(link, now);
  }

  /** The line carrying a streamed tool image delivers it. */
  lemma ToolImageDeliverable(version: u32, payload: seq<byte>, at: nat, now: nat)
    requires |payload| <= MAX_APP_SIZE && at <= now
    ensures var link := Stream(ToolImage(version, payload), at);
      Deliverable(link, now) && LinkHeader(link) == ToolHeader(version, payload)
  {
    var h := ToolHeader(version, payload);
    var image := ToolImage(version, payload);
    var link := Stream(image, at);
    StreamDrop(image, at, HEADER_SIZE);
    assert image[HEADER_SIZE..] == payload;
    ReadyOnTime(Stream(payload, at), now, h.size);
    StreamedHeader(Pack(h), payload, at, now);
    ParsePack(h);
    SliceToEnd(link, HEADER_SIZE, h.size);
  }

  /** The line after the first `k` bytes of a stream is the stream of the
      bytes after them. */
  lemma StreamDrop(bytes: seq<byte>, at: nat, k: nat)
    requires k <= |bytes|
    ensures Stream(bytes, at)[k..] == Stream(bytes[k..], at)
  {
    var a, b := Stream(bytes, at)[k..], Stream(bytes[k..], at);
    assert forall i | 0 <= i < |a| :: a[i] == b[i] by {
      assert forall i | 0 <= i < |a| :: a[i] == Stream(bytes, at)[k + i];
    }
  }

  lemma SliceToEnd(link: Link, k: nat, m: nat)
    requires k + m == |link|
    ensures link[k..k + m] == link[k..]
  {
  }

  /** A streamed header is all there when the session starts, and reading it
      takes no time. */
  lemma StreamedHeader(header: seq<byte>, payload: seq<byte>, at: nat, now: nat)
    requires |header| == HEADER_SIZE && at <= now
    ensures var link := Stream(header + payload, at);
      && ArrivesBy(link, HEADER_SIZE, now + HEADER_TIMEOUT_MS)
      && LinkHeader(link) == Parse(header)
      && Latest(now, link[..HEADER_SIZE]) == now
      && Values(link[HEADER_SIZE..]) == payload
  {
    var link := Stream(header + payload, at);
    assert Values(link[..HEADER_SIZE]) == header;
    LatestOfReady(now, link[..HEADER_SIZE]);
  }

  /** The upload tool's prepared image of a payload without a header is a
      tool image, so it is accepted the same way. */
  lemma PreparedImageAccepted(data: seq<byte>, version: Version, at: nat, now: nat)
    requires PrepareImage(data, version).Ready? && !HasHeader(data)
    requires |data| <= MAX_APP_SIZE && at <= now
    ensures var w := PackVersion(version).value;
      ReceiveFirmware(Stream(PrepareImage(data, version).image, at), now).outcome
      == Updated(ToolHeader(w, data))
  {
    var w := PackVersion(version).value;
    var image := PrepareImage(data, version).image;
    PackParse(image[..HEADER_SIZE]);
    assert image == image[..HEADER_SIZE] + image[HEADER_SIZE..];
    assert image == ToolImage(w, data);
    ToolImageAccepted(w, data, at, now);
  }

  // ---------------------------------------------------------------------
  // In memory
  // ---------------------------------------------------------------------

  /** Memory holding `image` from `addr` on and zero elsewhere. */
  function StoredAt(image: seq<byte>, addr: u32): Memory
    requires addr + |image| < U32_LIMIT
  {
    (a: u32) => if addr <= a < addr + |image| then image[a - addr] else 0
  }

  /** Reading stored bytes gives them back. */
  lemma ReadStored(image: seq<byte>, addr: u32, off: nat, n: nat)
    requires addr + |image| < U32_LIMIT && off + n <= |image|
    ensures ReadMemory(StoredAt(image, addr), Add32(addr, off), n) == image[off..off + n]
  {
    var s := ReadMemory(StoredAt(image, addr), Add32(addr, off), n);
    forall i | 0 <= i < n
      ensures s[i] == image[off + i]
    {
      assert ByteAt(StoredAt(image, addr), Add32(addr, off), i) == image[off + i];
    }
  }

  /** The resident-image check of a stored image: its header as written, and
      the bytes after it that the check reads. */
  lemma StoredImage(image: seq<byte>)
    requires HEADER_SIZE <= |image| && APP_START_ADDR + |image| < U32_LIMIT
    requires Parse(image[..HEADER_SIZE]).size <= |image|
    ensures var mem := StoredAt(image, APP_START_ADDR);
      var h := Parse(image[..HEADER_SIZE]);
      && StoredHeader(mem, APP_START_ADDR) == h
      && (h.size >= HEADER_SIZE ==> CheckedBytes(mem, APP_START_ADDR) == image[HEADER_SIZE..h.size])
  {
    var mem := StoredAt(image, APP_START_ADDR);
    ReadStored(image, APP_START_ADDR, 0, HEADER_SIZE);
    var h := Parse(image[..HEADER_SIZE]);
    if h.size >= HEADER_SIZE {
      ReadStored(image, APP_START_ADDR, HEADER_SIZE, h.size - HEADER_SIZE);
    }
  }

  /** A tool image stored at the application address, with a payload of at
      least 20 bytes within the cap, passes the resident-image check exactly
      when the payload without its last 20 bytes has the whole payload's
      CRC-32. */
  lemma StoredToolImageVerdict(version: u32, payload: seq<byte>)
    requires HEADER_SIZE <= |payload| <= MAX_APP_SIZE
    ensures VerifyApplication(StoredAt(ToolImage(version, payload), APP_START_ADDR), APP_START_ADDR) == Valid
            <==> Crc32(payload[..|payload| - HEADER_SIZE]) == Crc32(payload)
  {
    var h := ToolHeader(version, payload);
    var image := ToolImage(version, payload);
    assert image[..HEADER_SIZE] == Pack(h);
    ParsePack(h);
    StoredImage(image);
    assert image[HEADER_SIZE..h.size] == payload[..|payload| - HEADER_SIZE];
  }

  /** The image with `size` counting the header as well: what the resident
      check expects. */
  function WholeImage(version: u32, payload: seq<byte>): (image: seq<byte>)
    requires HEADER_SIZE + |payload| < U32_LIMIT
    ensures |image| == HEADER_SIZE + |payload|
  {
    Pack(Header(BOOT_MAGIC, version, HEADER_SIZE + |payload|, Crc32(payload), 0)) + payload
  }

  /** Stored, such an image passes the resident check whenever it is within
      the cap. */
  lemma WholeImageStoredValid(version: u32, payload: seq<byte>)
    requires HEADER_SIZE + |payload| <= MAX_APP_SIZE
    ensures VerifyApplication(StoredAt(WholeImage(version, payload), APP_START_ADDR), APP_START_ADDR) == Valid
  {
    var h := Header(BOOT_MAGIC, version, HEADER_SIZE + |payload|, Crc32(payload), 0);
    var image := WholeImage(version, payload);
    assert image[..HEADER_SIZE] == Pack(h);
    ParsePack(h);
    StoredImage(image);
    assert image[HEADER_SIZE..h.size] == payload;
  }

  /** Sent on its own, such an image never completes a session: the session
      waits for 20 bytes beyond its end and gives up. */
  lemma WholeImageStalls(version: u32, payload: seq<byte>, at: nat, now: nat)
    requires HEADER_SIZE + |payload| <= MAX_APP_SIZE && at <= now
    ensures ReceiveFirmware(Stream(WholeImage(version, payload), at), now).outcome == Failed(DataTimeout)
  {
    var h := Header(BOOT_MAGIC, version, HEADER_SIZE + |payload|, Crc32(payload), 0);
    var image := WholeImage(version, payload);
    var link := Stream(image, at);
    StreamedHeader(Pack(h), payload, at, now);
    ParsePack(h);
    HeaderPhase(link, now);
    var rest := link[HEADER_SIZE..];
    var t := Latest(now, link[..HEADER_SIZE]);
    if ChunksOnTime(rest, t, h.size) {
      OnTimeNeedsBytes(rest, t, h.size);
      assert false;
    }
    PayloadCompletes(rest, t, h.size, ALL_ONES);
  }
}
