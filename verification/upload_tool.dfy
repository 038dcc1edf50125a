/** The host side of an upload (tools/upload_tool.py), without the serial
    port: preparing the image, cutting it into 128-byte writes, and judging
    the bootloader's reply lines.  Which lines arrive within the ten-second
    verification window is an input. */
module UploadTool {
  import opened Wrappers
  import opened Bits
  import opened Bytes
  import opened Crc
  import opened Image
  import opened Text
  import opened Versions

  /** Bytes per serial write. */
  const WRITE_SIZE: nat := 128

  /** The version used when the command line names none. */
  const DEFAULT_VERSION: Version := Version(1, 0, 0)

  /** A file is taken to carry a header already when it is at least a header
      long and its first little-endian word is the magic number. */
  predicate HasHeader(data: seq<byte>)
  {
    |data| >= HEADER_SIZE && Word(data[..4]) == BOOT_MAGIC
  }

  /** The header both tools write in front of `payload`: its length and the
      CRC-32 of the payload alone. */
  function ToolHeader(version: u32, payload: seq<byte>): Header
    requires |payload| < U32_LIMIT
  {
    Header(BOOT_MAGIC, version, |payload|, Crc32(payload), 0)
  }

  /** What `upload_firmware` has in hand before it opens the port: an empty
      file is refused, `struct.pack` may raise (outside any handler), or the
      image to send. */
  datatype Prepared = EmptyFile | PackFailed | Ready(image: seq<byte>)

  /** The image `upload_firmware` sends for the file contents `data`. */
  function PrepareImage(data: seq<byte>, version: Version): (r: Prepared)
    ensures r == EmptyFile <==> |data| == 0
    ensures |data| > 0 && HasHeader(data) ==> r == Ready(data)
    ensures |data| > 0 && !HasHeader(data) ==>
      (r.Ready? <==> PackVersion(version).Some? && |data| < U32_LIMIT)
    ensures r.Ready? && !HasHeader(data) ==>
      && |r.image| == HEADER_SIZE + |data|
      && r.image[HEADER_SIZE..] == data
      && Parse(r.image[..HEADER_SIZE]) == ToolHeader(PackVersion(version).value, data)
  {
    if |data| == 0 then EmptyFile
    else if HasHeader(data) then Ready(data)
    else
      match PackVersion(version)
      case None => PackFailed
      case Some(w) =>
        if |data| >= U32_LIMIT then PackFailed
        else
          var h := ToolHeader(w, data);
          ParsePack(h);
          assert (Pack(h) + data)[..HEADER_SIZE] == Pack(h);
          Ready(Pack(h) + data)
  }

  /** A prepared image is recognised as already headed, so preparing it again
      sends it unchanged, whatever version is given the second time. */
  lemma PrepareIdempotent(data: seq<byte>, version: Version, again: Version)
    requires PrepareImage(data, version).Ready?
    ensures var image := PrepareImage(data, version).image;
      HasHeader(image) && PrepareImage(image, again) == Ready(image)
  {
    var image := PrepareImage(data, version).image;
    if !HasHeader(data) {
      var h := ToolHeader(PackVersion(version).value, data);
      assert image[..HEADER_SIZE] == Pack(h);
      PackedMagic(h);
      assert image[..4] == Pack(h)[..4];
    }
  }

  /** Write `k` of an image: `image[128k : 128k + 128]`. */
  function Slice(image: seq<byte>, k: nat): (chunk: seq<byte>)
    requires WRITE_SIZE * k < |image|
  {
    var lo := WRITE_SIZE * k;
    image[lo .. if lo + WRITE_SIZE <= |image| then lo + WRITE_SIZE else |image|]
  }

  /** Write `k` of the image exists and the port reports all of it written.
      `port(k, chunk)` is the count `ser.write` returns for the `k`-th
      write. */
  predicate WriteAccepted(port: (nat, seq<byte>) -> nat, image: seq<byte>, k: nat)
  {
    WRITE_SIZE * k < |image| && port(k, Slice(image, k)) == |Slice(image, k)|
  }

  /** The write loop: contiguous slices `image[sent:sent + 128]` until
      `sent` reaches the length, giving up at the first write the port
      reports short, with `sent` the offset of that write.  It succeeds
      exactly when every slice is written in full, and then the writes put
      exactly the image on the line, all but the last of them full. */
  method SendImage(image: seq<byte>, port: (nat, seq<byte>) -> nat) returns (writes: seq<seq<byte>>, sent: nat, ok: bool)
    ensures forall k | 0 <= k < |writes| :: WRITE_SIZE * k < |image| && writes[k] == Slice(image, k)
    ensures ok <==> forall k: nat | WRITE_SIZE * k < |image| :: WriteAccepted(port, image, k)
    ensures !ok ==> |writes| > 0 && sent == WRITE_SIZE * (|writes| - 1)
                    && !WriteAccepted(port, image, |writes| - 1)
    ensures ok ==> sent == |image| && Flatten(writes) == image
                   && |writes| == (|image| + WRITE_SIZE - 1) / WRITE_SIZE
    ensures forall k | 0 <= k < |writes| :: 0 < |writes[k]| <= WRITE_SIZE
    ensures forall k | 0 <= k < |writes| - 1 :: |writes[k]| == WRITE_SIZE
  {
    writes := [];
    sent := 0;
    while sent < |image|
      invariant Sending(image, port, writes, sent)
      decreases |image| - sent
    {
      var end := if sent + WRITE_SIZE <= |image| then sent + WRITE_SIZE else |image|;
      var chunk := image[sent..end];
      SendingStep(image, port, writes, sent);
      if port(|writes|, chunk) != |chunk| {
        writes := writes + [chunk];
        ok := false;
        return;
      }
      writes, sent := writes + [chunk], end;
    }
    SendingDone(image, port, writes, sent);
    ok := true;
  }

  /** The loop so far: the `|writes|` slices before `sent`, each one
      accepted by the port. */
  predicate Sending(image: seq<byte>, port: (nat, seq<byte>) -> nat, writes: seq<seq<byte>>, sent: nat)
  {
    && sent <= |image| && sent <= WRITE_SIZE * |writes|
    && Flatten(writes) == image[..sent]
    && (forall k | 0 <= k < |writes| :: WRITE_SIZE * k < |image| && writes[k] == Slice(image, k))
    && (forall k | 0 <= k < |writes| :: WriteAccepted(port, image, k))
    && (forall k | 0 <= k < |writes| :: 0 < |writes[k]| <= WRITE_SIZE)
    && (forall k | 0 <= k < |writes| - 1 :: |writes[k]| == WRITE_SIZE)
    && (sent < |image| ==> sent == WRITE_SIZE * |writes|)
    && |writes| == (sent + WRITE_SIZE - 1) / WRITE_SIZE
  }

  /** The next write is the next slice; if the port takes it in full the
      loop goes on, and otherwise the attempted writes meet the failure
      postconditions. */
  lemma SendingStep(image: seq<byte>, port: (nat, seq<byte>) -> nat, writes: seq<seq<byte>>, sent: nat)
    requires Sending(image, port, writes, sent) && sent < |image|
    ensures var end := if sent + WRITE_SIZE <= |image| then sent + WRITE_SIZE else |image|;
      var chunk := image[sent..end];
      && WRITE_SIZE * |writes| < |image| && chunk == Slice(image, |writes|)
      && (port(|writes|, chunk) == |chunk| ==> Sending(image, port, writes + [chunk], end))
      && (port(|writes|, chunk) != |chunk| ==>
            && sent == WRITE_SIZE * |writes|
            && !WriteAccepted(port, image, |writes|)
            && (forall k | 0 <= k < |writes| + 1 :: 0 < |(writes + [chunk])[k]| <= WRITE_SIZE)
            && (forall k | 0 <= k < |writes| :: |(writes + [chunk])[k]| == WRITE_SIZE)
            && (forall k | 0 <= k < |writes| + 1 ::
                  WRITE_SIZE * k < |image| && (writes + [chunk])[k] == Slice(image, k)))
  {
    var end := if sent + WRITE_SIZE <= |image| then sent + WRITE_SIZE else |image|;
    var chunk := image[sent..end];
    CountStep(|writes|, end - sent);
    assert image[..end] == image[..sent] + chunk;
  }

  /** A loop that ran out of bytes sent the whole image, every slice
      accepted. */
  lemma SendingDone(image: seq<byte>, port: (nat, seq<byte>) -> nat, writes: seq<seq<byte>>, sent: nat)
    requires Sending(image, port, writes, sent) && sent >= |image|
    ensures sent == |image| && Flatten(writes) == image
    ensures forall k: nat | WRITE_SIZE * k < |image| :: WriteAccepted(port, image, k)
  {
    assert image[..sent] == image;
    WritesCover(|image|, |writes|);
  }

  /** Every write offset below `n` is among the first `w` writes when those
      can hold `n` bytes. */
  lemma WritesCover(n: nat, w: nat)
    requires n <= WRITE_SIZE * w
    ensures forall k: nat | WRITE_SIZE * k < n :: k < w
  {
  }

  /** One more write of `n` bytes after `k` full ones. */
  lemma CountStep(k: nat, n: nat)
    requires 0 < n <= WRITE_SIZE
    ensures (WRITE_SIZE * k + n + WRITE_SIZE - 1) / WRITE_SIZE == k + 1
  {
    DivUnique(WRITE_SIZE * k + n + WRITE_SIZE - 1, WRITE_SIZE, k + 1, n - 1);
  }

  // ---------------------------------------------------------------------
  // Reply lines
  // ---------------------------------------------------------------------

  /** How one reply line bears on the upload. */
  datatype Reply = Success | Failure | Neutral

  const SUCCESS_WORDS: seq<string> := ["successful", "verified ok", "update successful"]
  const FAILURE_WORDS: seq<string> := ["error", "failed", "mismatch"]

  /** Some word of `words` occurs in `line`. */
  predicate Mentions(line: string, words: seq<string>)
  {
    exists k | 0 <= k < |words| :: Contains(line, words[k])
  }

  /** `any(word in line for word in words)`, left to right. */
  function AnyIn(line: string, words: seq<string>): (b: bool)
    ensures b <==> Mentions(line, words)
    decreases |words|
  {
    if |words| == 0 then false
    else
      assert forall k | 1 <= k < |words| :: words[k] == words[1..][k - 1];
      Contains(line, words[0]) || AnyIn(line, words[1..])
  }

  /** A reply line, stripped and lower-cased: a success word wins over a
      failure word, and an empty line is skipped. */
  function Classify(raw: string): Reply
  {
    var line := Strip(raw);
    if |line| == 0 then Neutral
    else
      var low := Lower(line);
      if AnyIn(low, SUCCESS_WORDS) then Success
      else if AnyIn(low, FAILURE_WORDS) then Failure
      else Neutral
  }

  /** A line reports success exactly when it mentions a success word, and
      failure exactly when it mentions a failure word but no success word;
      a line with neither, or nothing but whitespace, changes nothing. */
  lemma ClassifyMeaning(raw: string)
    ensures var line := Lower(Strip(raw));
      && (Classify(raw) == Success <==> Mentions(line, SUCCESS_WORDS))
      && (Classify(raw) == Failure <==> !Mentions(line, SUCCESS_WORDS) && Mentions(line, FAILURE_WORDS))
  {
    if |Strip(raw)| == 0 {
      BlankLine(raw);
    }
  }

  /** A line of nothing but whitespace is neutral and mentions no word. */
  lemma BlankLine(raw: string)
    requires |Strip(raw)| == 0
    ensures Classify(raw) == Neutral
    ensures !Mentions(Lower(Strip(raw)), SUCCESS_WORDS) && !Mentions(Lower(Strip(raw)), FAILURE_WORDS)
  {
    assert Lower(Strip(raw)) == [];
    NothingInEmpty(SUCCESS_WORDS);
    NothingInEmpty(FAILURE_WORDS);
  }

  /** `lower()` is not ASCII-only: a line ending in the Kelvin sign reads
      as `verified ok`. */
  lemma KelvinSignVerified(plain: string, raw: string)
    requires plain == "verified o" && raw == plain + [KELVIN]
    ensures Classify(raw) == Success
  {
    assert !IsSpace(raw[0]) && !IsSpace(raw[|raw| - 1]);
    assert StripStart(raw) == raw && StripEnd(raw) == raw;
    LowerAppend(plain, [KELVIN]);
    LowerFixed(plain);
    assert Lower([KELVIN]) == "k";
    var low := Lower(raw);
    assert StartsWith(low, SUCCESS_WORDS[1]);
  }

  /** The empty line mentions no non-empty word. */
  lemma NothingInEmpty(words: seq<string>)
    requires forall k | 0 <= k < |words| :: |words[k]| > 0
    ensures !Mentions([], words)
  {
    forall k | 0 <= k < |words|
      ensures !Contains([], words[k])
    {
      assert !StartsWith([], words[k]);
    }
  }

  /** How `upload_firmware` ends once the image is sent. */
  datatype Verdict = Uploaded | Rejected | Unclear

  /** The verification wait over the classified lines read within its
      window, `seen` recording whether a success line has been read: the
      first failure ends the upload at once; otherwise it succeeded iff some
      line reported success. */
  function Await(replies: seq<Reply>, seen: bool): (v: Verdict)
    ensures v == Rejected <==> Failure in replies
    ensures v == Uploaded <==> Failure !in replies && (seen || Success in replies)
    decreases |replies|
  {
    if |replies| == 0 then (if seen then Uploaded else Unclear)
    else
      var rest := replies[1..];
      assert replies == [replies[0]] + rest;
      match replies[0]
      case Failure => Rejected
      case Success => Await(rest, true)
      case Neutral => Await(rest, seen)
  }

  /** The classification of every line. */
  function Replies(lines: seq<string>): (rs: seq<Reply>)
    ensures |rs| == |lines|
    ensures forall i | 0 <= i < |lines| :: rs[i] == Classify(lines[i])
  {
    seq(|lines|, i requires 0 <= i < |lines| => Classify(lines[i]))
  }

  /** The verdict on the raw lines read in the window. */
  function AwaitVerification(lines: seq<string>): (v: Verdict)
    ensures v == Rejected <==> exists i | 0 <= i < |lines| :: Classify(lines[i]) == Failure
    ensures v == Uploaded <==> (forall i | 0 <= i < |lines| :: Classify(lines[i]) != Failure)
                               && (exists i | 0 <= i < |lines| :: Classify(lines[i]) == Success)
  {
    var replies := Replies(lines);
    assert Failure in replies <==> exists i | 0 <= i < |lines| :: replies[i] == Failure;
    assert Success in replies <==> exists i | 0 <= i < |lines| :: replies[i] == Success;
    Await(replies, false)
  }

  /** A failure line rejects the upload even after a success line. */
  lemma FailureAfterSuccess(ok: string, bad: string)
    requires Classify(ok) == Success && Classify(bad) == Failure
    ensures AwaitVerification([ok, bad]) == Rejected
  {
    assert Classify([ok, bad][1]) == Failure;
  }

  /** The version `main` passes on: the default without a third argument,
      otherwise the parsed argument (`None` exits with an error). */
  function CommandVersion(arg: Option<string>): (r: Option<Version>)
    ensures arg.None? ==> r == Some(DEFAULT_VERSION)
    ensures arg.Some? ==> r == ParseVersion(arg.value)
  {
    match arg
    case None => Some(DEFAULT_VERSION)
    case Some(s) => ParseVersion(s)
  }
}
