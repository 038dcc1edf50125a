/** tools/add_bootloader_header.py without the file system: the version
    argument, the header and the output bytes for a payload. */
module HeaderTool {
  import opened Wrappers
  import opened Bytes
  import opened Crc
  import opened Image
  import opened Versions
  import opened UploadTool

  /** How `add_bootloader_header` ends: a version it refuses (it returns
      `False`), an exception from `struct.pack` (which no handler catches),
      or the bytes it writes. */
  datatype HeaderResult = BadVersion | PackError | Written(output: seq<byte>)

  /** The output for the payload `payload` and the version argument
      `versionText`.  The version is parsed and combined inside the handler,
      but the header is packed outside it, so a version word that does not
      fit in 32 bits raises instead of being reported. */
  function AddHeader(versionText: string, payload: seq<byte>): (r: HeaderResult)
    ensures r == BadVersion <==> ParseVersion(versionText).None?
    ensures r.Written? <==> && ParseVersion(versionText).Some?
                            && PackVersion(ParseVersion(versionText).value).Some?
                            && |payload| < U32_LIMIT
    ensures r.Written? ==>
      && |r.output| == HEADER_SIZE + |payload|
      && r.output[HEADER_SIZE..] == payload
      && Parse(r.output[..HEADER_SIZE])
         == ToolHeader(PackVersion(ParseVersion(versionText).value).value, payload)
  {
    match ParseVersion(versionText)
    case None => BadVersion
    case Some(v) =>
      match PackVersion(v)
      case None => PackError
      case Some(w) =>
        if |payload| >= U32_LIMIT then PackError
        else
          var h := ToolHeader(w, payload);
          ParsePack(h);
          assert (Pack(h) + payload)[..HEADER_SIZE] == Pack(h);
          Written(Pack(h) + payload)
  }

  /** The two tools write the same image: for a non-empty payload without a
      header, the header tool's output is what the upload tool sends for the
      same version. */
  lemma ToolsAgree(versionText: string, payload: seq<byte>)
    requires AddHeader(versionText, payload).Written?
    requires |payload| > 0 && !HasHeader(payload)
    ensures PrepareImage(payload, ParseVersion(versionText).value)
            == Ready(AddHeader(versionText, payload).output)
  {
  }

  /** The header tool takes an empty payload, giving a 20-byte image whose
      size field is zero and whose checksum is that of no bytes. */
  lemma EmptyPayload(versionText: string)
    requires AddHeader(versionText, []).Written?
    ensures var out := AddHeader(versionText, []).output;
      |out| == HEADER_SIZE && Parse(out).size == 0 && Parse(out).crc32 == 0
  {
    Crc32Empty();
    assert AddHeader(versionText, []).output[..HEADER_SIZE] == AddHeader(versionText, []).output;
  }
}
