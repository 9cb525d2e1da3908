/** The Builder's own entry points: Add, CompileTo and CompileWithOptions on the rows it holds. */
module BuilderFiles {
  import opened Words
  import opened Rows
  import opened BuilderState
  import opened Ingest
  import opened Duplicates
  import opened CheckedFlag
  import CompileV1
  import CompileV2
  import BuildV2
  import LookupV2

  /** Add: only the size limits are checked. */
  method Add(b: Builder, key: Bytes, value: Bytes, line: int, passed: nat) returns (r: Result)
    requires b.Valid()
    modifies b, b.spill
    ensures b.Valid() && b.checked == old(b.checked)
    ensures r.Accepted? <==> Storable(Row(key, value))
    ensures r.Accepted? <==> |key| <= 65535 && |value| <= 0x10_0000
    ensures b.Contents() == old(b.Contents()) + if r.Accepted? then [Row(key, value)] else []
    ensures r.Rejected? ==> r.error == LimitError(Item(Row(key, value), line))
    ensures Does(old(LedgerOf(b)), if r.Accepted? then Added(key) else Unchanged, LedgerOf(b))
  {
    if |key| > MAX_KEY {
      return Rejected(KeyTooLong(line));
    }
    if |value| > MAX_VALUE {
      return Rejected(ValueTooLong(line));
    }
    KeysConcat(b.Contents(), [Row(key, value)]);
    assert Keys([Row(key, value)]) == [key];
    b.AppendRow(key, value, line, passed);
    r := Accepted;
  }

  /** The rows read so far. */
  ghost predicate ReadTo(b: Builder, rows0: seq<Row>, rows: seq<Row>, i: nat)
    reads b, b.spill
  {
    b.Valid() && b.Contents() == rows0 && i <= |rows0| && rows == rows0[..i]
  }

  lemma NextRow(rows0: seq<Row>, i: nat, key: Bytes, value: Bytes)
    requires i < |rows0| && key == rows0[i].key && value == rows0[i].value
    ensures rows0[..i] + [Row(key, value)] == rows0[..i + 1]
  {
  }

  /** One row: its key, then its value. */
  method ReadRow(b: Builder, i: nat) returns (key: Bytes, value: Bytes)
    requires b.Valid() && i < |b.index.offs|
    modifies b.spill
    ensures b.Valid() && b.Region() == old(b.Region())
    ensures key == b.Contents()[i].key && value == b.Contents()[i].value
  {
    key := b.RowKey(i);
    value := b.RowValue(i);
  }

  /** Every row's key and value, read back from the arena or the spill file. */
  method ReadRows(b: Builder) returns (rows: seq<Row>)
    requires b.Valid()
    modifies b.spill
    ensures b.Valid() && b.Region() == old(b.Region()) && rows == b.Contents()
  {
    ghost var rows0 := b.Contents();
    rows := [];
    for i := 0 to |b.index.offs|
      invariant ReadTo(b, rows0, rows, i) && b.Region() == old(b.Region())
    {
      var key, value := ReadRow(b, i);
      NextRow(rows0, i, key, value);
      rows := rows + [Row(key, value)];
    }
  }

  /** A compile that passed duplicate detection, if there was any to do. */
  ghost predicate DetectedOr(l: Ledger, t: Ledger, passed: bool) {
    Does(l, if passed then Detected else Unchanged, t)
  }

  /** Record a passed detection. */
  method NoteDetected(b: Builder, passed: bool)
    requires b.Valid() && (passed ==> NoRepeat(Keys(b.Contents()), b.checked))
    modifies b`checked
    ensures b.Valid() && b.Contents() == old(b.Contents()) && DetectedOr(old(LedgerOf(b)), LedgerOf(b), passed)
  {
    if passed && b.checked < |b.index.offs| {
      b.SetChecked();
    }
  }

  /**
   CompileTo. A file is written exactly if there is one for the rows, whatever `checked` says about them; its rows
   then have pairwise different keys.
  */
  method CompileTo(b: Builder, crc: Crc) returns (r: CompileV1.CompileResult)
    requires b.Valid()
    modifies b`checked, b.spill
    ensures b.Valid() && b.Contents() == old(b.Contents())
    ensures r.Written? ==> CompileV1.IsFile(b.Contents(), b.hash, crc, r.file) && DistinctKeys(b.Contents())
    ensures !r.Written? ==> forall f :: !CompileV1.IsFile(b.Contents(), b.hash, crc, f)
    ensures CompileV1.Verdict(b.Contents(), old(b.checked), b.hash, r)
    ensures DetectedOr(old(LedgerOf(b)), LedgerOf(b), !r.DuplicateRow?)
  {
    var rows := ReadRows(b);
    r := CompileV1.Compile(rows, b.checked, b.dataBytes, b.hash, crc);
    NoteDetected(b, !r.DuplicateRow?);
    if r.Written? {
      CompileV1.FileDistinct(rows, b.hash, crc, r.file);
    }
  }

  /** CompileWithOptions, likewise; `detected` tells whether it got past duplicate detection. */
  method CompileWithOptions(b: Builder, opts: CompileV2.Options, env: LookupV2.Env) returns (r: BuildV2.CompileResult, ghost detected: bool)
    requires b.Valid() && b.hash == env.hash && |b.index.offs| <= CompileV2.MAX_ROWS && CompileV2.GoodEnv(env, |b.index.offs|)
    modifies b`checked, b.spill
    ensures b.Valid() && b.Contents() == old(b.Contents())
    ensures r.Written? ==> CompileV2.IsFile(b.Contents(), opts, env, r.file) && DistinctKeys(b.Contents())
    ensures !r.Written? ==> forall f :: !CompileV2.IsFile(b.Contents(), opts, env, f)
    ensures BuildV2.Verdict(b.Contents(), old(b.checked), opts, env, r)
    ensures DetectedOr(old(LedgerOf(b)), LedgerOf(b), detected)
    ensures (r.Written? || r.NotBuilt? ==> detected) && (r.BadOptions? || r.NoEntries? || r.DuplicateRow? ==> !detected)
  {
    var rows := ReadRows(b);
    var passed;
    r, passed := BuildV2.Compile(rows, b.checked, b.dataBytes, opts, env);
    detected := passed;
    NoteDetected(b, passed);
    if r.Written? {
      CompileV2.FileDistinct(rows, opts, env, r.file);
    }
  }

  /** Two equal keys added unchecked, then an empty BuildFrom: it is accepted, and the flag covers both rows. */
  method MarkRepeated(hash: Hash, k: Bytes, v: Bytes, w: Bytes) returns (b: Builder)
    requires Storable(Row(k, v)) && Storable(Row(k, w))
    ensures fresh(b) && b.Valid() && Keys(b.Contents()) == [k, k] && b.checked == 2
    ensures !Truthful(LedgerOf(b))
  {
    b := new Builder(hash, null);
    var added := Add(b, k, v, 1, 0);
    added := Add(b, k, w, 2, 0);
    ghost var rows := b.Contents();
    assert rows == [Row(k, v), Row(k, w)];
    var r := BuildFrom(b, [], false, 0);
    assert ItemRows([]) == [] && rows + [] == rows;
    TwoEqual(Keys(rows), k);
  }

  lemma TwoEqual(keys: seq<Bytes>, k: Bytes)
    requires keys == [k, k]
    ensures !DuplicateFree(keys) && keys[..2] == keys
  {
    assert Repeats(keys, 0, 1);
    assert IsRepeat(keys, 1);
  }
}
