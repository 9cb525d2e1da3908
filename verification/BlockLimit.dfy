/** The reader's limit of 2^28 bytes per block, which the writer does not check: exactly when it bites. */
module BlockLimit {
  import opened Words
  import opened Rows
  import opened PtHash
  import opened FileV2
  import opened LookupV2
  import opened CompileV2
  import opened BuildV2

  /** Every row of the file answers with its value. */
  ghost predicate AllFound(m: Mapping, rows: seq<Row>, env: Env)
    requires FileV2.Readable(m)
  {
    forall i | 0 <= i < |rows| :: FoundAt(m, rows[i], env)
  }

  predicate FoundAt(m: Mapping, r: Row, env: Env)
    requires FileV2.Readable(m)
  {
    Entry(m, env.hash(r.key), r.key, env.mixer, env.fp) == Found(r.value)
  }

  /** Every key, present or absent, answers like the plain map. */
  ghost predicate AllAgree(m: Mapping, rows: seq<Row>, env: Env)
    requires FileV2.Readable(m)
  {
    forall key: Bytes :: AgreesAt(m, rows, key, env)
  }

  predicate AgreesAt(m: Mapping, rows: seq<Row>, key: Bytes, env: Env)
    requires FileV2.Readable(m)
  {
    Entry(m, env.hash(key), key, env.mixer, env.fp) == Expected(rows, key)
  }

  lemma HeldReadable(m: Mapping, o: Format, content: seq<Row>, rows: seq<Row>, env: Env)
    requires Holds(m, o, content, rows, env)
    ensures FileV2.Readable(m)
  {
  }

  /** The row of a slot whose block is too large. */
  lemma CorruptedRow(m: Mapping, opts: Options, content: seq<Row>, width: nat, rows: seq<Row>, env: Env, s: nat) returns (i: nat)
    requires Plans(rows, opts, env, m.t, content, width) && Holds(m, FormatOf(opts, width), content, rows, env)
    requires s < |content| && TooLarge(StoredRows(content, opts.fingerprintBytes, env.fp), FormatOf(opts, width), s)
    ensures i < |rows| && content[s] == rows[i] && FileV2.Readable(m)
    ensures Entry(m, env.hash(rows[i].key), rows[i].key, env.mixer, env.fp) == Corrupted
  {
    var xs := Hashes(rows, env.hash);
    MinimalPerfect(m.t, xs, env.sizing(|rows|), env.mixer);
    i := ContentAt(m.t, xs, rows, content, env.hash, env.mixer, s);
    PresentKey(m, FormatOf(opts, width), content, rows, env, i);
  }

  /** All plans of the rows have the same blocks. */
  lemma SameBlocks(rows: seq<Row>, opts: Options, env: Env, t: Table, content: seq<Row>, width: nat)
    requires Plans(rows, opts, env, t, content, width)
    requires BlocksFit(StoredRows(content, opts.fingerprintBytes, env.fp), FormatOf(opts, width))
    ensures BlocksReadable(rows, opts, env)
  {
    forall u, c, w | Plans(rows, opts, env, u, c, w)
      ensures BlocksFit(StoredRows(c, opts.fingerprintBytes, env.fp), FormatOf(opts, w))
    {
      LaidUnique(rows, env, t, content, u, c);
      SameFit(StoredRows(c, opts.fingerprintBytes, env.fp), FormatOf(opts, width), FormatOf(opts, w));
    }
  }

  lemma SameFit(recs: seq<Bytes>, a: Format, b: Format)
    requires BlocksFit(recs, a) && a.lz4 == b.lz4 && a.shift == b.shift
    ensures BlocksFit(recs, b)
  {
    forall s | 0 <= s < |recs|
      ensures !TooLarge(recs, b, s)
    {
      assert !TooLarge(recs, a, s);
    }
  }

  /** If a block is not readable, some row answers with corruption. */
  lemma UnreadableRow(rows: seq<Row>, opts: Options, env: Env, file: Bytes, checkCrc: bool) returns (m: Mapping, i: nat)
    requires AllStorable(rows) && IsFile(rows, opts, env, file) && !BlocksReadable(rows, opts, env)
    ensures ParseV2(file, checkCrc, env.crc) == FileV1.Ok(m) && FileV2.Readable(m) && i < |rows|
    ensures Entry(m, env.hash(rows[i].key), rows[i].key, env.mixer, env.fp) == Corrupted
  {
    var mapping, content, width := EndToEnd(rows, opts, env, file, checkCrc);
    m := mapping;
    var recs, o := StoredRows(content, opts.fingerprintBytes, env.fp), FormatOf(opts, width);
    if BlocksFit(recs, o) {
      SameBlocks(rows, opts, env, m.t, content, width);
    }
    var s: nat :| s < |recs| && TooLarge(recs, o, s);
    i := CorruptedRow(m, opts, content, width, rows, env, s);
  }

  /** Every row of a compiled file is found, with full keys or fingerprints, if and only if its blocks are readable. */
  lemma FoundIff(rows: seq<Row>, opts: Options, env: Env, file: Bytes, checkCrc: bool)
    requires AllStorable(rows) && IsFile(rows, opts, env, file)
    ensures var p := ParseV2(file, checkCrc, env.crc);
      p.Ok? && FileV2.Readable(p.m) && (AllFound(p.m, rows, env) <==> BlocksReadable(rows, opts, env))
  {
    var m, content, width := EndToEnd(rows, opts, env, file, checkCrc);
    HeldReadable(m, FormatOf(opts, width), content, rows, env);
    if BlocksReadable(rows, opts, env) {
      forall i: nat | i < |rows|
        ensures FoundAt(m, rows[i], env)
      {
        LookupPresent(rows, opts, env, file, checkCrc, i);
      }
    } else {
      var m2, i := UnreadableRow(rows, opts, env, file, checkCrc);
      assert !FoundAt(m, rows[i], env);
    }
  }

  /** With full keys, every lookup of a compiled file answers like the plain map if and only if its blocks are readable. */
  lemma AgreeIff(rows: seq<Row>, opts: Options, env: Env, file: Bytes, checkCrc: bool)
    requires AllStorable(rows) && IsFile(rows, opts, env, file) && opts.fingerprintBytes == 0
    ensures var p := ParseV2(file, checkCrc, env.crc);
      p.Ok? && FileV2.Readable(p.m) && (AllAgree(p.m, rows, env) <==> BlocksReadable(rows, opts, env))
  {
    var m, content, width := EndToEnd(rows, opts, env, file, checkCrc);
    HeldReadable(m, FormatOf(opts, width), content, rows, env);
    if BlocksReadable(rows, opts, env) {
      forall key: Bytes
        ensures AgreesAt(m, rows, key, env)
      {
        LookupFull(rows, opts, env, file, checkCrc, key);
      }
    } else {
      var m2, i := UnreadableRow(rows, opts, env, file, checkCrc);
      ExpectedRow(rows, i);
      assert !AgreesAt(m, rows, rows[i].key, env);
    }
  }
}
