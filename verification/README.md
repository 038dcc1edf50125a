# RV32IMZ UART bootloader and its image tools, in Dafny

This project models the firmware-update path of the RV32IMZ SoC. It has three parts.

**The UART bootloader** (`bootloader.c`):
- the table-driven CRC-32;
- the timeout-bounded byte receiver;
- the check of the resident image (magic number `0xB007ABCD`, size cap 16 KiB, CRC-32);
- the streaming update session (a 20-byte header, then the payload in chunks of at most 128 bytes folded into a running CRC);
- the 3-second update prompt;
- the boot decision: jump to the application, wait for a reset, or loop in recovery.

**The host tools** that must agree with the bootloader byte for byte:
- the uploader and the header tool, which compute a bitwise CRC-32, pack the version word and write the 20-byte little-endian header;
- the serialisers that turn a binary into 32-bit little-endian hex words: `add_padding.py`, `bin2verilog.py`, `sim/bin2hex.py`, and the converter in the compliance-test runner;
- the pure parts of the compliance-test runner.

**The `factorial.c` test program**, with signed 32-bit overflow taken as the two's-complement wrap-around of the RV32I core's `add` instruction. C itself leaves that overflow undefined.

### How peripherals and integers are modelled

The serial line is a list of byte arrivals. Each arrival is stamped with the millisecond from which the receiver reports it ready (`Transport`). The clock is a millisecond count. Memory is a total map from 32-bit addresses to bytes.

A run of `bootloader_main` ends in one of three ways:
- the jump to an entry point;
- the wait for a manual reset after an accepted update;
- the recovery loop, of which `Bootloader.Recovery` gives the first `n` rounds.

Integers are unbounded in Dafny. The source's `uint32_t` address arithmetic (`Bootloader.Add32`, `Bootloader.Sub32`) are written out explicitly. So is the wrap-around that the core's `add` gives signed 32-bit `int` sums (`Factorial.Wrap32`), where C leaves the overflow undefined. XOR and OR are recursive functions on naturals (`Bits`).

The modules follow the source:

| module | models |
|---|---|
| `Crc` | `crc32_init_table`, `crc32_calculate` and the tools' `crc32` |
| `Transport` | `uart_receive_bytes` |
| `Bootloader` | `verify_application`, the jump target, `receive_firmware`, `check_for_update_request` and `bootloader_main`, as written |
| `Numerals` | `uart_put_hex`, Python's integer formats and `int()` |
| `Image` | header layout and version packing |
| `Versions` | the `X.Y.Z` argument |
| `UploadTool` | `upload_tool.py` |
| `HeaderTool` | `add_bootloader_header.py` |
| `AddPadding` | `add_padding.py` |
| `Bin2Verilog` | `bin2verilog.py` |
| `HexImage` | `sim/bin2hex.py` |
| `Compliance` | `run_compliance_tests.py` |
| `Factorial` | `factorial.c` |
| `Interop` | how the tools' images fare on the firmware as written |
| `Intended` | the bootloader with the three defects under "Findings" corrected |

## Model

| member | source | states |
|---|---|---|
| Crc.InitTable | distribution/rv32imz_full_soc/firmware/bootloader/bootloader.c:63-78 | Table entry `i` is `i` run through eight reflected shift/xor steps with `0xEDB88320`. A table that is already built is returned unchanged. |
| Crc.EntryHighBit | distribution/rv32imz_full_soc/firmware/bootloader/bootloader.c:66-75 | Entry `0x80` of the table is the polynomial `0xEDB88320`, as in the standard CRC-32 table. |
| Crc.Calculate | distribution/rv32imz_full_soc/firmware/bootloader/bootloader.c:80-89 | The table-driven loop (start all-ones, `table[(crc^b)&0xFF] ^ (crc>>8)` per byte, complement at the end) returns the bitwise reflected CRC-32 of the data. |
| Crc.Crc32Empty | distribution/rv32imz_full_soc/firmware/bootloader/bootloader.c:83-88 | Both the bitwise and the table-driven CRC of no bytes is 0. |
| Crc.UpdatesAgree | distribution/rv32imz_full_soc/firmware/bootloader/bootloader.c:86 | One table lookup gives the same register as eight bitwise shift/xor steps on the byte, for every register and byte. |
| Crc.FoldsAgree | distribution/rv32imz_full_soc/firmware/bootloader/bootloader.c:84-87 | Folding any data through the table equals folding it bit by bit, from any starting register. |
| Crc.TableCrcIsCrc32 | distribution/rv32imz_full_soc/firmware/bootloader/bootloader.c:80-89 | The bootloader's table CRC-32 equals the tools' bitwise CRC-32 on every byte string. |
| Crc.ComplementsAgree | tools/upload_tool.py:37 | Python's `(~crc) & 0xFFFFFFFF` equals C's `~crc` on `uint32_t`. |
| Crc.ToolCrc32 | tools/upload_tool.py:27-37 | The tools' bitwise loop (the same function at tools/add_bootloader_header.py:17-27) returns the bootloader's table CRC-32 of the data. |
| Crc.FoldTableAppend | distribution/rv32imz_full_soc/firmware/bootloader/bootloader.c:269-271 | Folding `a + b` equals folding `a` and then `b` from the register that results. |
| Crc.ChunkedFoldIsBulk | distribution/rv32imz_full_soc/firmware/bootloader/bootloader.c:258-277 | Feeding the running CRC chunk by chunk gives the register of folding the concatenated chunks in one go. |
| Numerals.PutHex | distribution/rv32imz_full_soc/firmware/bootloader/bootloader.c:107-117 | The output is `0x` and eight upper-case hex digits, most significant nibble first, whose value is the word. |
| Numerals.Hex8 | tools/add_padding.py:34 | `'{:08x}'` of a 32-bit word is eight hex digits of the requested case whose value is the word. |
| Numerals.Hex8Injective | tools/add_padding.py:34 | Different words have different eight-digit renderings. |
| Numerals.Hex8Unique | tools/add_padding.py:34 | Any eight digits of one case whose value is `w` are the rendering of `w`. |
| Numerals.ValueOfDigits | distribution/rv32imz_full_soc/firmware/bin2verilog.py:28 | Python's `'{:d}'` and `'{:x}'` digit strings read back as the number they render. |
| Numerals.ParseInt | tools/add_bootloader_header.py:34 | `int(s)`/`int(s, 16)` succeeds exactly when three conditions hold. First, `s` with the whitespace `int()` skips cut from both ends is an optional sign followed by a run of digits, with single underscores between digits and, in base 16, an optional `0x` prefix. That whitespace is tab through carriage return, space, and the non-ASCII whitespace, but not U+001C..U+001F. Second, in base 10 the run has at most 4300 digits. |
| Numerals.SeparatorNotSkipped | tools/add_bootloader_header.py:34 | `'\x1c5'.strip()` is `5`, but `int('\x1c5')` fails: `int()` does not skip the ASCII separators that `str.strip()` removes. |
| Numerals.LongNumeralRefused | tools/add_bootloader_header.py:34 | `int()` refuses every decimal numeral of more than 4300 digits, leading zeros included. |
| Numerals.ParseDecimal | tools/add_bootloader_header.py:34 | `int(str(n))` is `n` for every integer, negative ones included, whose `str` has at most 4300 digits. For every longer one it fails. |
| Numerals.ParseHex8 | run_compliance_tests.py:75 | `int(x, 16)` reads every `'{:08x}'` rendering back as its word. |
| Versions.ParseVersionText | tools/add_bootloader_header.py:33-40 | Every version written as `major.minor.patch` parses back to itself exactly when no part has more than 4300 digits. Otherwise the text is an invalid version. |
| Versions.ParseVersion | tools/add_bootloader_header.py:33-36 | The version text is split at every `.`; it names a version only when there are exactly three pieces and `int()` reads each. `Versions.ParseVersionParts` and `Versions.ParseVersionText` carry its contract. The same rule is at tools/upload_tool.py:231-234. |
| Versions.ParseVersionParts | tools/add_bootloader_header.py:34-36 | A string that splits at `.` into exactly three decimal numerals parses to those three numbers, unless one has more than 4300 digits. |
| Versions.VersionTextSplits | tools/add_bootloader_header.py:34 | A written version splits at `.` into exactly its three numerals. |
| Image.ParsePack | distribution/rv32imz_full_soc/firmware/bootloader/bootloader.c:48-54 | Reading back a packed `<IIIII` header gives the same five fields. |
| Image.PackParse | distribution/rv32imz_full_soc/firmware/bootloader/bootloader.c:48-54 | Any 20 bytes are the packing of the header they read as. |
| Image.PackedMagic | tools/upload_tool.py:85-87 | The first little-endian word of a packed header is its magic number. |
| Image.PackVersion | tools/upload_tool.py:99-105 | The version word `major << 16 | minor << 8 | patch`, or `None` where `struct.pack('<I', …)` raises. `Image.PackVersionDefined`, `Image.PackVersionFields` and `Image.VersionWordsCollide` carry its contract. |
| Image.PackVersionDefined | tools/upload_tool.py:99-105 | The version word (major shifted left 16, OR minor shifted left 8, OR patch) packs as `<I` exactly when major < 2^16, minor < 2^24 and patch < 2^32, all non-negative. Otherwise `struct.pack` fails. |
| Image.PackVersionFields | tools/add_bootloader_header.py:37 | With byte-sized minor and patch the word is `65536*major + 256*minor + patch`, and each field can be read back from it. |
| Image.VersionWordsCollide | tools/upload_tool.py:99 | Versions 1.0.256 and 1.1.0 pack to the same word `0x10100`. |
| Image.OrLanes | tools/upload_tool.py:99 | The OR of the three shifted fields is their sum when the fields do not overlap. |
| HeaderTool.AddHeader | tools/add_bootloader_header.py:29-76 | `BadVersion` iff the version text does not parse (`Versions.ParseVersion`, with `int()`'s whitespace and digit cap). Output is written iff the version also packs and the payload fits a `uint32_t` length. The output is the header (magic, version word, payload length, payload CRC-32) followed by the unchanged payload. |
| HeaderTool.ToolsAgree | tools/add_bootloader_header.py:54-69 | For a non-empty headerless payload, both tools produce the same image from the same version. |
| HeaderTool.EmptyPayload | tools/add_bootloader_header.py:54-63 | An empty payload gets a 20-byte header with size 0 and CRC 0. |
| UploadTool.HasHeader | tools/upload_tool.py:84-90 | A file already carries a header when it is at least 20 bytes long and its first little-endian word is the magic number. `UploadTool.PrepareImage` and `UploadTool.PrepareIdempotent` carry its contract. |
| UploadTool.PrepareImage | tools/upload_tool.py:77-109 | An empty file is rejected. A file with a header is sent as it is. Otherwise the tool prepends the header of the packed version, the payload length and the payload's CRC-32, or fails where the version does not pack. |
| UploadTool.PrepareIdempotent | tools/upload_tool.py:84-90 | A prepared image is recognised as already headed, so preparing it again under any version leaves it unchanged. |
| UploadTool.SendImage | tools/upload_tool.py:136-161 | Writes are consecutive slices of at most 128 bytes, all full but the last. The upload succeeds iff every write is complete; it then has sent the whole image and the writes concatenate to it. On a short write it stops at that slice, having counted only the bytes before it. |
| UploadTool.AnyIn | tools/upload_tool.py:177 | `any(word in line ...)` is true iff some word occurs in the line. |
| UploadTool.Classify | tools/upload_tool.py:171-181 | One reply line, stripped and lower-cased, as success, failure or neither. `UploadTool.ClassifyMeaning`, `UploadTool.BlankLine` and `UploadTool.KelvinSignVerified` carry its contract. |
| UploadTool.ClassifyMeaning | tools/upload_tool.py:172-181 | The stripped, lower-cased line reports success iff it mentions a success word, and failure iff it mentions a failure word but no success word. |
| UploadTool.BlankLine | tools/upload_tool.py:172-173 | A line of nothing but whitespace is skipped. |
| UploadTool.KelvinSignVerified | tools/upload_tool.py:177 | "verified o" followed by the Kelvin sign reports success, because Python lower-cases that sign to `k`. |
| UploadTool.Await | tools/upload_tool.py:170-184 | The wait rejects iff some reply is a failure. It succeeds iff no reply is a failure and a success was seen before or among the replies. |
| UploadTool.AwaitVerification | tools/upload_tool.py:165-198 | The upload fails iff some line read in the window is a failure line. It succeeds iff none is and some line is a success line. Otherwise the status is unclear. |
| UploadTool.FailureAfterSuccess | tools/upload_tool.py:177-181 | A failure line ends the upload as failed even after a success line. |
| UploadTool.CommandVersion | tools/upload_tool.py:228-237 | Without a third argument the version is 1.0.0. Otherwise it is the argument parsed as `X.Y.Z` by `Versions.ParseVersion`, or an error. |
| Text.Strip | tools/upload_tool.py:172 | `strip()` returns a contiguous piece of the line with only whitespace cut from either end, and neither end of the result is whitespace. |
| Text.Lower | tools/upload_tool.py:177 | After `lower()` no upper-case ASCII letter, Kelvin sign or dotted capital I is left, and no character is lost. |
| Text.LowerFixed | tools/upload_tool.py:177 | `lower()` leaves a string unchanged iff it holds none of those characters. |
| Text.LowerIdempotent | tools/upload_tool.py:177 | Lower-casing twice is lower-casing once. |
| Text.ContainsIff | tools/upload_tool.py:177 | `word in line` holds iff the word occurs at some position of the line. |
| Text.JoinSplit | tools/add_bootloader_header.py:34 | Joining the pieces of `split(sep)` with `sep` gives back the string. |
| Text.SplitJoin | tools/add_padding.py:44 | Splitting a `sep`-join of pieces free of `sep` gives back the pieces. |
| Text.FirstField | run_compliance_tests.py:73-75 | `line.split()[0]`: absent iff the line is all whitespace. Otherwise it is a non-empty run of non-whitespace that occurs in the line. |
| Transport.ReceiveUntil | distribution/rv32imz_full_soc/firmware/bootloader/bootloader.c:142-156 | The receive succeeds iff the first `length` bytes are ready by the deadline, and then holds exactly `length` bytes. A timeout is noticed one millisecond after the deadline. |
| Transport.ReceiveBytes | distribution/rv32imz_full_soc/firmware/bootloader/bootloader.c:142-156 | The polling loop (give up once more than `timeout_ms` have passed, otherwise store the next ready byte) computes that receive. |
| Transport.ReceivedBytes | distribution/rv32imz_full_soc/firmware/bootloader/bootloader.c:151-152 | A successful receive stores the first `length` bytes of the line in order. The line continues after them. |
| Transport.ReceivedAt | distribution/rv32imz_full_soc/firmware/bootloader/bootloader.c:146-155 | A successful receive ends no earlier than its start. By its end every stored byte was ready, and it ends at its start or at the readiness time of a stored byte. |
| Transport.TimedOutRest | distribution/rv32imz_full_soc/firmware/bootloader/bootloader.c:147-148 | After a timeout, some first `k < length` bytes were taken and the next one was not ready in time. |
| Bootloader.VerifyApplication | distribution/rv32imz_full_soc/firmware/bootloader/bootloader.c:162-191 | It checks the magic first, then the size cap, then the CRC-32 of the bytes after the header against the stored one. The image is valid iff all three pass, and a CRC failure reports both values. |
| Bootloader.CheckedLength | distribution/rv32imz_full_soc/firmware/bootloader/bootloader.c:179 | The check covers `size - 20` bytes in `uint32_t` arithmetic: 2^32 - 20 + size bytes when size < 20. |
| Bootloader.ReceivePayload | distribution/rv32imz_full_soc/firmware/bootloader/bootloader.c:258-275 | The payload loop: chunks of at most 128 bytes, each under its own 5 s timeout, folded into the running CRC. `Bootloader.PayloadCompletes` and `Bootloader.PayloadFolded` carry its contract. |
| Bootloader.ChunkLength | distribution/rv32imz_full_soc/firmware/bootloader/bootloader.c:261 | A chunk is at most 128 bytes and at most what remains, and never empty while bytes remain. |
| Bootloader.PayloadCompletes | distribution/rv32imz_full_soc/firmware/bootloader/bootloader.c:260-275 | The payload loop completes iff every chunk arrives within 5 s of the previous one. |
| Bootloader.PayloadFolded | distribution/rv32imz_full_soc/firmware/bootloader/bootloader.c:258-275 | A completed payload loop has taken exactly `size` bytes, and its register is the fold of all of them. |
| Bootloader.ReceiveFirmware | distribution/rv32imz_full_soc/firmware/bootloader/bootloader.c:215-290 | `receive_firmware()`: the 20-byte header under a 30 s timeout, then `Bootloader.CheckedSession`. `Bootloader.HeaderPhase`, `Bootloader.HeaderTimesOut`, `Bootloader.SessionAccepts`, `Bootloader.SessionReports` and `Bootloader.SessionClock` carry its contract. |
| Bootloader.CheckedSession | distribution/rv32imz_full_soc/firmware/bootloader/bootloader.c:226-289 | The rest of the session once the header is in: the magic and size checks, the payload loop from the all-ones preset, and the compare with the header's CRC. `Bootloader.RejectsBeforePayload` and `Bootloader.CheckedAccepts` carry its contract. |
| Bootloader.HeaderPhase | distribution/rv32imz_full_soc/firmware/bootloader/bootloader.c:220-224 | When the 20 header bytes arrive within 30 s, the session goes on with the header they spell and the rest of the line. |
| Bootloader.HeaderTimesOut | distribution/rv32imz_full_soc/firmware/bootloader/bootloader.c:220-224 | The session fails with a header timeout iff the 20 header bytes do not arrive within 30 s. It then ends just after the deadline. |
| Bootloader.RejectsBeforePayload | distribution/rv32imz_full_soc/firmware/bootloader/bootloader.c:226-237 | A bad magic or an oversized header fails the session after the header, with no payload byte read. |
| Bootloader.CheckedAccepts | distribution/rv32imz_full_soc/firmware/bootloader/bootloader.c:226-289 | After the header, the session succeeds iff the magic is right, the size is within the cap, all `size` bytes arrive chunk by chunk in time, and their CRC-32 is the header's. It then reports that header and stops right after the payload. |
| Bootloader.HeaderAccepts | distribution/rv32imz_full_soc/firmware/bootloader/bootloader.c:226-289 | Once the header is in on time, the rest of the session accepts exactly when the line delivers an update: valid magic, size within the cap, the payload on the line and on time, and a matching CRC-32. |
| Bootloader.SessionAccepts | distribution/rv32imz_full_soc/firmware/bootloader/bootloader.c:215-290 | `receive_firmware` returns true iff the line is deliverable: header in time, magic, size cap, every chunk in time, and a matching CRC. |
| Bootloader.SessionReports | distribution/rv32imz_full_soc/firmware/bootloader/bootloader.c:215-290 | An accepted session took exactly the header and `size` payload bytes off the line. |
| Bootloader.SessionClock | distribution/rv32imz_full_soc/firmware/bootloader/bootloader.c:215-290 | A session never ends before it started. |
| Bootloader.StreamFirmware | distribution/rv32imz_full_soc/firmware/bootloader/bootloader.c:215-290 | The imperative session, with its buffer, running register and lazily built table, computes the session function. |
| Bootloader.FoldChunk | distribution/rv32imz_full_soc/firmware/bootloader/bootloader.c:269-271 | The per-chunk table loop folds the chunk into the running register. |
| Bootloader.CheckForUpdate | distribution/rv32imz_full_soc/firmware/bootloader/bootloader.c:292-317 | An update is requested iff the first byte arrives within 3000 ms and is `U` or `u`. Any first byte is consumed. The prompt ends within its window. |
| Bootloader.CheckForUpdateRequest | distribution/rv32imz_full_soc/firmware/bootloader/bootloader.c:292-317 | The polling loop of the prompt computes that decision. |
| Bootloader.BootResident | distribution/rv32imz_full_soc/firmware/bootloader/bootloader.c:353-379 | Once no update was accepted: memory and the line are left as they are, the run never waits for a reset, and it jumps to `APP_START_ADDR + 20` iff the resident image passes `verify_application`. Otherwise it enters recovery. |
| Bootloader.BootMain | distribution/rv32imz_full_soc/firmware/bootloader/bootloader.c:323-380 | Memory is never written. The run waits for a reset iff an update was accepted. It jumps to `APP_START_ADDR + 20` iff no update was accepted and the resident image is valid, and enters recovery otherwise. |
| Bootloader.Recovery | distribution/rv32imz_full_soc/firmware/bootloader/bootloader.c:355-366 | After `n` rounds the loop has one outcome per round, memory is as it was, and at least `n` seconds have passed. |
| Bootloader.RecoveryRound | distribution/rv32imz_full_soc/firmware/bootloader/bootloader.c:361-366 | Round `n + 1` keeps the earlier outcomes. It accepts an update exactly when the line left by round `n` is deliverable, and then reports that line's header. It ends at least one second after round `n`. |
| Bootloader.UpdateNotInstalled | distribution/rv32imz_full_soc/firmware/bootloader/bootloader.c:340-347 | A blank board that accepts a valid empty update still finds no valid image after the reset. |
| Interop.ToolImageAccepted | tools/upload_tool.py:98-108 | An image the tools build, sent promptly and within the cap, is accepted by the session with the tools' header. |
| Interop.PreparedImageAccepted | tools/upload_tool.py:83-108 | What the uploader prepares from a headerless file within the cap is accepted by the session. |
| Interop.StoredToolImageVerdict | distribution/rv32imz_full_soc/firmware/bootloader/bootloader.c:177-179 | A stored tool image passes the resident check iff dropping the payload's last 20 bytes leaves its CRC-32 unchanged. |
| Interop.WholeImageStoredValid | distribution/rv32imz_full_soc/firmware/bootloader/bootloader.c:179 | An image whose `size` counts the header passes the resident check. |
| Interop.WholeImageStalls | distribution/rv32imz_full_soc/firmware/bootloader/bootloader.c:251-266 | Such an image never completes a session: it ends in a data timeout. |
| Intended.VerifyPayload | distribution/rv32imz_full_soc/firmware/bootloader/bootloader.c:162-191 | The corrected resident check. It has the same order and verdicts, but takes the CRC-32 of exactly `size` bytes after the header, never more than the cap. |
| Intended.CheckedIsPayloadPrefix | distribution/rv32imz_full_soc/firmware/bootloader/bootloader.c:179 | Where `size - 20` does not wrap, the firmware checks the payload less its last 20 bytes. |
| Intended.StoredToolImageValid | distribution/rv32imz_full_soc/firmware/bootloader/bootloader.c:177-188 | Every stored tool image within the cap passes the corrected check. |
| Intended.ReceivedImageValid | distribution/rv32imz_full_soc/firmware/bootloader/bootloader.c:245-290 | An image a session accepted passes the corrected check once it is written to the application region. |
| Intended.InstalledImageValid | distribution/rv32imz_full_soc/firmware/bootloader/bootloader.c:162-191 | A well-formed image written at the application address passes the corrected check. |
| Intended.BootPayload | distribution/rv32imz_full_soc/firmware/bootloader/bootloader.c:353-379 | `Bootloader.BootResident` with the corrected check: memory and the line are left as they are, no wait for a reset, and a jump iff the payload passes `Intended.VerifyPayload`. |
| Intended.CommitBootMain | distribution/rv32imz_full_soc/firmware/bootloader/bootloader.c:340-347 | The corrected boot writes an accepted update to the application region before waiting for the reset, and otherwise leaves memory alone. It jumps or recovers by the corrected check. |
| Intended.InstalledUpdateBoots | distribution/rv32imz_full_soc/firmware/bootloader/bootloader.c:340-347 | After an accepted update and a reset, unless a new update is accepted, the corrected bootloader jumps to the application. |
| Intended.EmptyUpdateInstalled | distribution/rv32imz_full_soc/firmware/bootloader/bootloader.c:340-347 | The blank board that accepts the valid empty update boots it after the reset. |
| Bytes.WordOfLe32 | sim/bin2hex.py:24 | Reading the four little-endian bytes of a word gives the word back. |
| Bytes.Le32OfWord | sim/bin2hex.py:24 | Any four bytes are the little-endian bytes of the word they read as. |
| Bytes.UnwordsWords | distribution/rv32imz_full_soc/firmware/bin2verilog.py:20-23 | Cutting padded data into words and writing the words out again gives the data back. |
| Bytes.WordsUnwords | distribution/rv32imz_full_soc/firmware/bin2verilog.py:20-23 | Writing words out and cutting them again gives the words back. |
| Bytes.PadToWordBoundary | sim/bin2hex.py:18-19 | The loop appends fewer than four zero bytes to reach a multiple of four, keeping the data as a prefix. |
| AddPadding.PadTo | tools/add_padding.py:19-25 | Input longer than the target is refused. Otherwise the result is exactly the target long, keeps the input as a prefix and is zero after it. |
| AddPadding.OrWordIsWord | tools/add_padding.py:33 | The OR of the four shifted bytes is their little-endian word. |
| AddPadding.ReadWord | tools/add_padding.py:31-34 | The full-word branch yields the `i/4`-th little-endian word. |
| AddPadding.PartialWord | tools/add_padding.py:35-41 | The partial-word loop yields the little-endian word of the tail extended with zeros. |
| AddPadding.HexWords | tools/add_padding.py:30-41 | The word loop yields one eight-digit line for each zero-extended word. |
| AddPadding.AddPaddingAndHex | tools/add_padding.py:11-47 | The whole conversion returns the padded hex text, or `False` for oversized input. |
| AddPadding.HexLinesReadBack | tools/add_padding.py:34 | Each hex line is eight characters without a newline, and reads back as its word. |
| AddPadding.PaddingHexLines | tools/add_padding.py:29-44 | The output splits into ceil(target/4) lines, and line `i` is the `'{:08x}'` rendering of the `i`-th little-endian word of the padded data. |
| AddPadding.EmptyTarget | tools/add_padding.py:11-47 | Empty input and a target of 0 give an empty file. |
| Bin2Verilog.VerilogLines | distribution/rv32imz_full_soc/firmware/bin2verilog.py:25-34 | There are three header lines (source name, word count, blank), then one `imem` line per word, with index `start + i` and word `i`. |
| Bin2Verilog.BinToVerilog | distribution/rv32imz_full_soc/firmware/bin2verilog.py:9-46 | The text is those lines joined by newlines, and the returned count is the padded length divided by four. |
| Bin2Verilog.VerilogTextLines | distribution/rv32imz_full_soc/firmware/bin2verilog.py:37 | Splitting the text at newlines gives back exactly those lines. |
| Bin2Verilog.ImemLineWord | distribution/rv32imz_full_soc/firmware/bin2verilog.py:33-34 | Each `imem` line carries its word as eight lower-case hex digits that read back as the word. |
| Bin2Verilog.ImemLineInjective | distribution/rv32imz_full_soc/firmware/bin2verilog.py:33-34 | Two `imem` lines at the same index are equal only for equal words. |
| Bin2Verilog.VerilogTextFaithful | distribution/rv32imz_full_soc/firmware/bin2verilog.py:9-46 | Two inputs give the same text iff they are equal once zero-padded to whole words. |
| HexImage.HexTextLayout | sim/bin2hex.py:23-25 | Line `i` of the output is the `i`-th word in eight lower-case hex digits followed by a newline. |
| HexImage.HexTextInjective | sim/bin2hex.py:23-25 | Different word lists give different texts. |
| HexImage.HexFileFaithful | sim/bin2hex.py:17-25 | Two inputs give the same hex file iff they are equal once zero-padded to whole words. |
| HexImage.BinToHex | sim/bin2hex.py:17-27 | The loop writes that file, and the reported count is the padded length divided by four. |
| Compliance.ConvertElfToHex | run_compliance_tests.py:25-59 | The conversion succeeds iff `objcopy` produced a binary. The hex file is then the same word-per-line image as `sim/bin2hex.py`'s; on failure nothing is written. |
| Compliance.FirstPicked | run_compliance_tests.py:71-74 | The search stops at the first line that mentions `tohost`, not `write_tohost`, and has a field. |
| Compliance.LineWord | run_compliance_tests.py:73-80 | The offset is `(addr - 0x80000000)` floor-divided by four, or 0x400 when the first field is no hex number. |
| Compliance.ScanTohost | run_compliance_tests.py:71-83 | The offset comes from the first picked line, or is 0x400 when there is none. |
| Compliance.TohostWordOffset | run_compliance_tests.py:61-85 | When `nm` fails the offset is 0x400. |
| Compliance.TohostFound | run_compliance_tests.py:71-80 | An `nm` line for `tohost` at `addr`, after lines that do not mention it, yields the word containing `addr`, and exactly `addr`'s word when `addr` is aligned. |
| Compliance.TohostDefault | run_compliance_tests.py:82-83 | Output that never mentions `tohost` yields 0x400. |
| Compliance.VerilogName | run_compliance_tests.py:94 | Every `-` becomes `_` and every other character is kept. |
| Compliance.VerilogNameIdempotent | run_compliance_tests.py:94 | Sanitising a sanitised name changes nothing. |
| Compliance.VerilogNameCollision | run_compliance_tests.py:94 | Names that differ only by `-` versus `_` get the same Verilog name. |
| Compliance.ReportOf | run_compliance_tests.py:238-289 | "TEST PASSED" wins over "TEST FAILED", which wins over "TEST TIMEOUT". Anything else is unknown, and compile failures, simulator timeouts and exceptions have their own branches. |
| Compliance.RunTest | run_compliance_tests.py:238-289 | A test passes iff the simulation finished and its output contains "TEST PASSED". |
| Compliance.SilentRunFails | run_compliance_tests.py:279-282 | Output without the word `TEST` is an unknown result, and so a failure. |
| Factorial.MultiplyAdd | programs/factorial.c:19-28 | `multiply_add(a, b)` is 0 for b ≤ 0 and, for b ≥ 0, `a*b` wrapped to 32 bits as the core's `add` computes it. |
| Factorial.ProdIsFact | programs/factorial.c:43-46 | The product of `lo+1 .. n` times `lo!` is `n!`: the loop's invariant. |
| Factorial.Factorial | programs/factorial.c:39-49 | `factorial(n)` is 1 for n ≤ 1 and, for n ≥ 1, n! wrapped to 32 bits as the core's `add` computes it. |
| Factorial.FactorialExact | programs/factorial.c:39-49 | Up to n = 12 the result is exactly n!. |
| Factorial.FactorialThirteenWraps | programs/factorial.c:39-49 | On the core, 13! = 6227020800 wraps to 1932053504. |
| Factorial.Start | programs/factorial.c:56-59 | `_start` puts 120 in `a0`. |

## Left out

- Transport.ReceiveBytes: the clock is an unbounded millisecond count. In the source, `get_time_ms` is `TIMER_VALUE / 50000` on a `uint32_t` and wraps about every 85 899 ms (bootloader.c:128-131). The receive timeout is a `uint32_t` difference (bootloader.c:147). A receive that spans the wrap fails at once in the source, while the model still waits for its bytes.
- Transport.ReceiveBytes: the UART receive buffer is taken to be unbounded. Bytes never overrun or get lost, and the host's sending takes no time beyond the readiness stamps on the line.
- Factorial.MultiplyAdd / Factorial.Factorial: `result = result + a` (factorial.c:24) overflows a signed `int` from 13! on, which C leaves undefined. The model takes the two's-complement wrap that the RV32I `add` instruction performs, so `Factorial.FactorialThirteenWraps` states what the core computes, not what C guarantees.
- Bootloader.CheckForUpdateRequest: the 3000 ms window uses the same unbounded clock. In the source it is a `uint32_t` difference (bootloader.c:296, 308), and a prompt that spans the clock wrap ends early. The countdown dots (bootloader.c:306-312) are not modelled, as they are console output only.
- Bootloader.Recovery: the one-second pause uses the same unbounded clock. In the source `delay_ms` is a `uint32_t` difference (bootloader.c:135) that can end early across the clock wrap, so the lower bound of one second per round does not hold there. The endless loop is given as its first `n` rounds, and the "Recovery successful" message is not modelled.
- Numerals.ParseInt (and so `Versions.ParseVersion`): the 4300-digit cap is CPython's default from Python 3.11 on. Older interpreters have no cap, and `-X int_max_str_digits` or `PYTHONINTMAXSTRDIGITS` change it. Only ASCII digits are accepted. Python's `int()` also accepts the other Unicode decimal digits, so "１.０.０" is version 1.0.0 in the tools and an invalid version here.
- Text.Lower: only ASCII letters, the Kelvin sign and the dotted capital I are lower-cased. These are the only characters whose Python lower case contains an ASCII letter. Every other character is kept, where Python may map it to other non-ASCII text. The keywords are ASCII, so this changes no classification of a reply line.
- Text.Strip: reply lines are taken as already decoded. The `decode('utf-8', errors='ignore')` of raw bytes is not modelled.
- All console output is not modelled: `uart_puts`/`uart_putc` text, the banner, error messages, and the tools' progress and result prints. The exception is `uart_put_hex`'s digits (`Numerals.PutHex`). Printing also takes no time in the model. In the source, `uart_putc` busy-waits until the transmitter is empty (bootloader.c:95-98). The messages at bootloader.c:218, 239-255, 274 and 293 are printed before the following `start_time` is read, so each of those deadlines starts a little later than in the model.
- MMIO registers, `uart_getc`, the busy-wait loops and the `csrci`/indirect-call sequence of `jump_to_application` (bootloader.c:193-209) are not modelled. A jump is the entry address it targets (`Bootloader.EntryPoint`), and `delay_ms` is a step of the clock. Memory is a pure function of the address, and `verify_application` takes no time. For a stored size below 20 the source's wrapped count (`Bootloader.CheckedLength`) walks the whole address space, through the UART and timer registers at 0x80000000-0x80000013. There, `UART_TX_DATA` doubles as the receive register (bootloader.c:125), so reading it can take a byte off the line. The walk also takes real time.
- The static table flag is modelled as an explicit table cache that is threaded through the session (`Crc.InitTable`).
- `wait_for_bootloader`, opening, flushing and closing the serial port, and the sleeps in `upload_firmware` are not modelled. Which reply lines arrive within the ten-second window is an input to `UploadTool.AwaitVerification`. What a serial write accepts is a parameter of `UploadTool.SendImage`.
- File reading and writing, `argparse`/`sys.argv` handling and exit codes are not modelled. Inputs and outputs are byte strings and texts. `UploadTool.CommandVersion` covers the one argument rule with an effect on the image.
- Compliance.ConvertElfToHex: any failure gives `False` and no text. In the source, a failure to delete the `.bin` file (run_compliance_tests.py:55) comes after the hex file has been written in full, so that file stays behind although the result is `False`. An exception part way through writing leaves a partial file.
- The `objcopy`, `nm`, `iverilog` and `vvp` runs are not modelled, and neither are the testbench template text, the test discovery and the pass/fail tally of `main` in the compliance runner. Their results are inputs: the binary, the lines of `nm` output and how the simulation ended.
- `bin2verilog.py` printing to standard output when no output file is given is not modelled. The text is the same in both cases.

## Findings

| source | as written | input that shows it | evidently intended | confidence | as-written member | corrected member |
|---|---|---|---|---|---|---|
| distribution/rv32imz_full_soc/firmware/bootloader/bootloader.c:179 | The resident check takes the CRC of `size - 20` bytes after the header. The update session (bootloader.c:251-275) and both tools (tools/add_bootloader_header.py:61, tools/upload_tool.py:103) treat `size` as the payload length alone. | A tool image with a payload of 20 bytes or more, stored at 0x4000. It passes only if dropping its last 20 bytes keeps the CRC. An image whose `size` counts the header passes the check but stalls every session. | The check covers exactly the `size` payload bytes the session received and the tools checksummed. | not executed; proved for all payloads | Interop.StoredToolImageVerdict, Interop.WholeImageStalls | Intended.VerifyPayload, Intended.StoredToolImageValid |
| distribution/rv32imz_full_soc/firmware/bootloader/bootloader.c:179 | `header->size - sizeof(firmware_header_t)` is computed in `uint32_t`. | A header with the right magic and size 0, which is what the tools write for an empty payload. The check then covers 2^32 - 20 bytes, wrapping around the address space. | The check reads `size` bytes, at most the 16 KiB cap. | not executed; proved for every size below 20 | Bootloader.CheckedLength | Intended.VerifyPayload, Intended.CheckedIsPayloadPrefix |
| distribution/rv32imz_full_soc/firmware/bootloader/bootloader.c:340-347 | An accepted update is never written to the application region (programming is only simulated, bootloader.c:245-247 and 287). The bootloader then waits for a reset. | A blank board that receives `U` and a valid empty image: the update is accepted, and after the reset the board is in recovery again. | The received image is written at 0x4000 before the reset, so the next boot runs it. | not executed; the source labels the step a simulation | Bootloader.UpdateNotInstalled | Intended.CommitBootMain, Intended.InstalledUpdateBoots, Intended.EmptyUpdateInstalled |
