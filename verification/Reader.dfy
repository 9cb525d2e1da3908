/** Opening a file of either version and looking keys up in it. */
module Reader {
  import opened Words
  import opened Rows
  import FileV1
  import CompileV1
  import FileV2
  import ReadV2
  import LookupV2
  import CompileV2

  datatype Opened = V1(m1: FileV1.Mapping) | V2(m2: FileV2.Mapping) | Failed(error: FileV1.ParseError)

  /** parseHeader: magic and version first, then the version's own checks */
  function Open(data: Bytes, checkCrc: bool, crc: Crc): Opened {
    if |data| < 4 then Failed(FileV1.CorruptedBinary)
    else if data[..4] != FileV1.Magic() then Failed(FileV1.InvalidMagic)
    else if |data| < 8 then Failed(FileV1.CorruptedBinary)
    else if BE(data[4..8]) == 1 then
      match FileV1.ParseV1(data, checkCrc, crc)
      case Ok(m) => V1(m)
      case Err(e) => Failed(e)
    else if BE(data[4..8]) == 2 then
      match FileV2.ParseV2(data, checkCrc, crc)
      case Ok(m) => V2(m)
      case Err(e) => Failed(e)
    else Failed(FileV1.UnknownVersion(BE(data[4..8])))
  }

  /** Every access a lookup makes stays inside the file. */
  predicate Readable(o: Opened) {
    match o
    case V1(m) => FileV1.Readable(m)
    case V2(m) => FileV2.Readable(m)
    case Failed(_) => false
  }

  /**
   Opening with the checksum verified fails where opening without it does, and in the same way; of the files that
   open without it, it rejects exactly those whose trailer is not the checksum of the rest.
  */
  lemma OpenVerified(data: Bytes, crc: Crc)
    ensures var o, v := Open(data, false, crc), Open(data, true, crc);
      && (!v.Failed? <==> !o.Failed? && FileV1.TrailerOk(data, crc))
      && v == if !o.Failed? && !FileV1.TrailerOk(data, crc) then Failed(FileV1.ChecksumMismatch) else o
  {
    FileV1.VerifiedIff(data, crc);
    ReadV2.VerifiedIff(data, crc);
  }

  /** A file that is not opened: by its first bytes, or by what its version's checks say. */
  lemma OpenRefused(data: Bytes, checkCrc: bool, crc: Crc)
    ensures var o := Open(data, checkCrc, crc);
      && (o == Failed(FileV1.InvalidMagic) <==> |data| >= 4 && data[..4] != [0x41, 0x54, 0x54, 0x4F])
      && (forall v :: o == Failed(FileV1.UnknownVersion(v)) <==> |data| >= 8 && data[..4] == [0x41, 0x54, 0x54, 0x4F] && v == BE(data[4..8]) && v != 1 && v != 2)
      && (o.V1? ==> BE(data[4..8]) == 1) && (o.V2? ==> BE(data[4..8]) == 2)
  {
  }

  /** entry */
  function Get(o: Opened, key: Bytes, env: LookupV2.Env): Answer
    requires Readable(o)
  {
    match o
    case V1(m) => FileV1.Entry(m, env.hash(key), key)
    case V2(m) => FileV2.Entry(m, env.hash(key), key, env.mixer, env.fp)
  }

  /** Lookups in a version 1 file agree with the plain map of its rows, for every key. */
  lemma GetAgreesV1(rows: seq<Row>, env: LookupV2.Env, file: Bytes, checkCrc: bool, key: Bytes)
    requires AllStorable(rows) && CompileV1.IsFile(rows, env.hash, env.crc, file) && |file| <= FileV1.MAX_INT64
    ensures Readable(Open(file, checkCrc, env.crc)) && Get(Open(file, checkCrc, env.crc), key, env) == Expected(rows, key)
  {
    CompileV1.EndToEnd(rows, env.hash, env.crc, file, checkCrc, key);
  }

  /** Lookups in a version 2 file with full keys and readable blocks agree with the plain map of its rows, for every key. */
  lemma GetAgreesV2(rows: seq<Row>, opts: CompileV2.Options, env: LookupV2.Env, file: Bytes, checkCrc: bool, key: Bytes)
    requires AllStorable(rows) && CompileV2.IsFile(rows, opts, env, file)
    requires opts.fingerprintBytes == 0 && CompileV2.BlocksReadable(rows, opts, env)
    ensures Readable(Open(file, checkCrc, env.crc)) && Get(Open(file, checkCrc, env.crc), key, env) == Expected(rows, key)
  {
    CompileV2.LookupFull(rows, opts, env, file, checkCrc, key);
    var m, content, width := CompileV2.EndToEnd(rows, opts, env, file, checkCrc);
  }

  /** So the two formats answer alike. */
  lemma FormatsAgree(rows: seq<Row>, opts: CompileV2.Options, env: LookupV2.Env, f: Bytes, g: Bytes, checkCrc: bool, key: Bytes)
    requires AllStorable(rows) && CompileV1.IsFile(rows, env.hash, env.crc, f) && |f| <= FileV1.MAX_INT64
    requires CompileV2.IsFile(rows, opts, env, g) && opts.fingerprintBytes == 0 && CompileV2.BlocksReadable(rows, opts, env)
    ensures Readable(Open(f, checkCrc, env.crc)) && Readable(Open(g, checkCrc, env.crc))
    ensures Get(Open(f, checkCrc, env.crc), key, env) == Get(Open(g, checkCrc, env.crc), key, env)
  {
    GetAgreesV1(rows, env, f, checkCrc, key);
    GetAgreesV2(rows, opts, env, g, checkCrc, key);
  }
}
