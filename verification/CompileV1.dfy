/** CompileTo: prepare and write, and what a version 1 file is as a function of the set of rows. */
module CompileV1 {
  import opened Words
  import opened Totals
  import opened Flatten
  import opened Rows
  import opened Placement
  import opened PlaceV1
  import opened FileV1
  import opened Duplicates
  import opened Primes

  /** maxDataBlock */
  const MAX_DATA := 0xFFFF_FFFF

  // ------------------------------------------------------------------- writing --

  method AppendDisp(buf: Bytes, wide: bool, disp: seq<nat>) returns (out: Bytes)
    ensures out == buf + DispBytes(wide, disp)
  {
    out := buf;
    for b := 0 to |disp|
      invariant out == buf + Flat(disp[..b], EncodeBE(DispWidth(wide)))
    {
      FlatPrefix(disp, b, EncodeBE(DispWidth(wide)));
      out := out + ToBE(disp[b], DispWidth(wide));
    }
    assert disp[..|disp|] == disp;
  }

  /** Rows are in slotRow or slots are empty. */
  predicate RowIds(slotRow: seq<nat>, n: nat) {
    n < EMPTY && forall s | 0 <= s < |slotRow| :: slotRow[s] < n || slotRow[s] == EMPTY
  }

  /** The words of the first s slots, and where the next record starts. */
  ghost predicate WordsTo(content: seq<Option<Row>>, s: nat, words: Bytes, off: nat) {
    s <= |content| && words == Flat(SlotWords(content)[..s], EncodeBE(8)) && off == |DataBlock(content[..s])|
  }

  lemma NextWord(content: seq<Option<Row>>, s: nat, words: Bytes, off: nat)
    requires WordsTo(content, s, words, off) && s < |content|
    ensures var ln := |SlotBytes(content[s])|;
      WordsTo(content, s + 1, words + ToBE(if content[s].Some? then off * TWO32 + ln else 0, 8), off + ln)
  {
    FlatPrefix(SlotWords(content), s, EncodeBE(8));
    FlatPrefix(content, s, SlotBytes);
  }

  /** The word of one slot, and where the next record starts. */
  method SlotWord(rows: seq<Row>, slotRow: seq<nat>, s: nat, off: nat) returns (word: nat, next: nat)
    requires RowIds(slotRow, |rows|) && s < |slotRow|
    ensures var c := Content(rows, slotRow)[s]; var ln := |SlotBytes(c)|;
      word == (if c.Some? then off * TWO32 + ln else 0) && next == off + ln
  {
    var r := slotRow[s];
    if r == EMPTY {
      return 0, off;
    }
    var ln := 2 + |rows[r].key| + |rows[r].value|;
    word, next := off * TWO32 + ln, off + ln;
  }

  method AppendWords(buf: Bytes, rows: seq<Row>, slotRow: seq<nat>) returns (out: Bytes)
    requires RowIds(slotRow, |rows|)
    ensures out == buf + WordBytes(Content(rows, slotRow))
  {
    ghost var content := Content(rows, slotRow);
    var words: Bytes, off: nat := [], 0;
    for s := 0 to |slotRow|
      invariant WordsTo(content, s, words, off)
    {
      NextWord(content, s, words, off);
      var word;
      word, off := SlotWord(rows, slotRow, s, off);
      words := words + ToBE(word, 8);
    }
    assert SlotWords(content)[..|slotRow|] == SlotWords(content);
    out := buf + words;
  }

  method AppendRecords(buf: Bytes, rows: seq<Row>, slotRow: seq<nat>) returns (out: Bytes)
    requires RowIds(slotRow, |rows|)
    ensures out == buf + DataBlock(Content(rows, slotRow))
  {
    ghost var content := Content(rows, slotRow);
    out := buf;
    for s := 0 to |slotRow|
      invariant out == buf + Flat(content[..s], SlotBytes)
    {
      FlatPrefix(content, s, SlotBytes);
      var r := slotRow[s];
      if r != EMPTY {
        out := out + (ToBE(|rows[r].key|, 2) + rows[r].key + rows[r].value);
      }
    }
    assert content[..|content|] == content;
  }

  /** write */
  method Write(rows: seq<Row>, z: Sizes, disp: seq<nat>, slotRow: seq<nat>, crc: Crc) returns (out: Bytes)
    requires RowIds(slotRow, |rows|)
    ensures out == File(z, Wide(disp), disp, Content(rows, slotRow), crc)
  {
    var maxD := Largest(disp);
    var wide := maxD > 0xFFFF;
    out := Header(z, wide);
    out := AppendDisp(out, wide, disp);
    out := AppendWords(out, rows, slotRow);
    out := AppendRecords(out, rows, slotRow);
    out := out + ToBE(crc(out), 4);
  }

  // --------------------------------------------------------------------- sizes --

  function RecordLength(rows: seq<Row>): nat -> int {
    (i: nat) => if i < |rows| then |Record(rows[i])| else 0
  }

  lemma {:induction false} RowBytesSum(rows: seq<Row>, k: nat)
    requires k <= |rows|
    ensures RowBytes(rows[..k]) == SumTo(k, RecordLength(rows))
  {
    if k > 0 {
      RowBytesSum(rows, k - 1);
      assert rows[..k][..k - 1] == rows[..k - 1];
    }
  }

  lemma {:induction false} ContentTotal(rows: seq<Row>, slotRow: seq<nat>, k: nat)
    requires k <= |slotRow|
    ensures |Flat(Content(rows, slotRow)[..k], SlotBytes)| == Total(slotRow[..k], Totals.Below(RecordLength(rows), |rows|))
  {
    if k > 0 {
      ContentTotal(rows, slotRow, k - 1);
      FlatPrefix(Content(rows, slotRow), k - 1, SlotBytes);
      TotalPrefix(slotRow, k - 1, Totals.Below(RecordLength(rows), |rows|));
    }
  }

  function Homes(hs: seq<nat>, z: Sizes, disp: seq<nat>): (at: seq<nat>)
    requires ValidSizes(z) && |disp| == z.buckets
    ensures |at| == |hs| && forall i | 0 <= i < |hs| :: at[i] == SlotOf1(hs[i], z, disp)
  {
    seq(|hs|, i requires 0 <= i < |hs| => SlotOf1(hs[i], z, disp))
  }

  /** The data block holds every row exactly once. */
  lemma DataBlockSize(rows: seq<Row>, hs: seq<nat>, z: Sizes, disp: seq<nat>, slotRow: seq<nat>)
    requires |hs| == |rows| < EMPTY && Inverse(hs, z, disp, slotRow)
    ensures |DataBlock(Content(rows, slotRow))| == RowBytes(rows)
  {
    var at := Homes(hs, z, disp);
    forall i | 0 <= i < |rows|
      ensures at[i] < |slotRow| && slotRow[at[i]] == i
    {
      assert AtHome(hs, z, disp, slotRow, i);
    }
    forall s | 0 <= s < |slotRow| && slotRow[s] < |rows|
      ensures at[slotRow[s]] == s
    {
      assert Honest(hs, z, disp, slotRow, s);
    }
    ScatterTotal(slotRow, at, |rows|, RecordLength(rows));
    ContentTotal(rows, slotRow, |slotRow|);
    RowBytesSum(rows, |rows|);
    assert rows[..|rows|] == rows && slotRow[..|slotRow|] == slotRow;
    assert Content(rows, slotRow)[..|slotRow|] == Content(rows, slotRow);
  }

  // ------------------------------------------------------------- specification --

  ghost predicate IsSizes(n: nat, z: Sizes) {
    LeastPrimeFrom(FirstCandidate(n), z.slots) && z.buckets == z.slots * 6 / 5
  }

  /** disp and slotRow are the placement of the rows, and their data block can be addressed. */
  ghost predicate Plans(rows: seq<Row>, hash: Hash, z: Sizes, disp: seq<nat>, slotRow: seq<nat>) {
    && |rows| < EMPTY && RowBytes(rows) <= MAX_DATA && IsSizes(|rows|, z)
    && IsPlacement(Hashes(rows, hash), z, disp, slotRow)
  }

  /** The file is the one CompileTo writes for the rows. */
  ghost predicate IsFile(rows: seq<Row>, hash: Hash, crc: Crc, file: Bytes) {
    exists z, disp, slotRow :: Plans(rows, hash, z, disp, slotRow) && file == File(z, Wide(disp), disp, Content(rows, slotRow), crc)
  }

  // ----------------------------------------------------------------- compiling --

  datatype CompileResult = Written(file: Bytes) | DuplicateRow(first: nat, row: nat) | TooManyRows | NotPlaced | TooLarge

  /** The rows fit the table of their size. */
  ghost predicate Fits1(rows: seq<Row>, hash: Hash) {
    exists z :: IsSizes(|rows|, z) && ValidSizes(z) && Placeable1(Hashes(rows, hash), z)
  }

  /** What each result means: the checks in their order, each reached only if the ones before it passed. */
  ghost predicate Verdict(rows: seq<Row>, checked: nat, hash: Hash, r: CompileResult) {
    if !NoRepeat(Keys(rows), checked) then r.DuplicateRow?
    else if |rows| >= 0xFFFF_FFFF then r.TooManyRows?
    else if !Fits1(rows, hash) then r.NotPlaced?
    else if RowBytes(rows) > 0xFFFF_FFFF then r.TooLarge?
    else r.Written?
  }

  /** CompileTo: detection of duplicates among the rows not yet checked, placement, size check, output. */
  method Compile(rows: seq<Row>, checked: nat, dataBytes: nat, hash: Hash, crc: Crc) returns (r: CompileResult)
    requires dataBytes == RowBytes(rows)
    ensures r.Written? ==> IsFile(rows, hash, crc, r.file)
    ensures !r.Written? ==> forall f :: !IsFile(rows, hash, crc, f)
    ensures r.DuplicateRow? ==> LowestRepeat(Keys(rows), checked, r.row) && EarliestEqual(Keys(rows), r.first, r.row)
    ensures Verdict(rows, checked, hash, r)
  {
    var hs := Hashes(rows, hash);
    if checked < |rows| {
      var best := FindDuplicate(Keys(rows), hs, checked);
      if best.Best? {
        RepeatedNotFile(rows, hash, crc, best.first, best.row);
        return DuplicateRow(best.first, best.row);
      }
    }
    if |rows| >= EMPTY {
      return TooManyRows;
    }
    var s, b := TableSizes(|rows|);
    var z := Sizes(s, b);
    var o, disp, slotRow := Place(hs, z);
    FitsIff(rows, hash, z);
    if !o.Done? {
      UnplacedNotFile(rows, hash, crc, z);
      return NotPlaced;
    }
    if dataBytes > MAX_DATA {
      return TooLarge;
    }
    InverseIds(hs, z, disp, slotRow);
    var file := Write(rows, z, disp, slotRow, crc);
    PlannedIsFile(rows, hash, z, disp, slotRow, crc);
    r := Written(file);
  }

  lemma FitsIff(rows: seq<Row>, hash: Hash, z: Sizes)
    requires IsSizes(|rows|, z) && ValidSizes(z)
    ensures Fits1(rows, hash) <==> Placeable1(Hashes(rows, hash), z)
  {
    if Fits1(rows, hash) {
      var y :| IsSizes(|rows|, y) && ValidSizes(y) && Placeable1(Hashes(rows, hash), y);
      SizesUnique(|rows|, y, z);
    }
  }

  lemma PlannedIsFile(rows: seq<Row>, hash: Hash, z: Sizes, disp: seq<nat>, slotRow: seq<nat>, crc: Crc)
    requires Plans(rows, hash, z, disp, slotRow)
    ensures IsFile(rows, hash, crc, File(z, Wide(disp), disp, Content(rows, slotRow), crc))
  {
  }

  lemma InverseIds(hs: seq<nat>, z: Sizes, disp: seq<nat>, slotRow: seq<nat>)
    requires Inverse(hs, z, disp, slotRow) && |hs| < EMPTY
    ensures RowIds(slotRow, |hs|)
  {
    forall s | 0 <= s < |slotRow|
      ensures slotRow[s] < |hs| || slotRow[s] == EMPTY
    {
      assert Honest(hs, z, disp, slotRow, s);
    }
  }

  lemma RepeatedNotFile(rows: seq<Row>, hash: Hash, crc: Crc, q: nat, r: nat)
    requires Repeats(Keys(rows), q, r)
    ensures forall f :: !IsFile(rows, hash, crc, f)
  {
    forall z, disp, slotRow
      ensures !Plans(rows, hash, z, disp, slotRow)
    {
      if Plans(rows, hash, z, disp, slotRow) {
        KeysDistinct(rows, hash, z, disp, slotRow);
      }
    }
  }

  lemma SizesUnique(n: nat, y: Sizes, z: Sizes)
    requires IsSizes(n, y) && IsSizes(n, z)
    ensures y == z
  {
    LeastPrimeUnique(FirstCandidate(n), y.slots, z.slots);
  }

  lemma UnplacedNotFile(rows: seq<Row>, hash: Hash, crc: Crc, z: Sizes)
    requires IsSizes(|rows|, z) && ValidSizes(z) && !Placeable1(Hashes(rows, hash), z)
    ensures forall f :: !IsFile(rows, hash, crc, f)
  {
    forall y, disp, slotRow
      ensures !Plans(rows, hash, y, disp, slotRow)
    {
      if Plans(rows, hash, y, disp, slotRow) {
        SizesUnique(|rows|, y, z);
      }
    }
  }

  // ---------------------------------------------------------------- end to end --

  /**
   A compiled file opens, with or without its checksum verified, and looking any key up in it is looking
   the key up in the plain map of the rows; the rows had pairwise different keys.
  */
  lemma EndToEnd(rows: seq<Row>, hash: Hash, crc: Crc, file: Bytes, checkCrc: bool, key: Bytes)
    requires AllStorable(rows) && IsFile(rows, hash, crc, file) && |file| <= MAX_INT64
    ensures DistinctKeys(rows) && |file| >= 8 && file[..4] == Magic() && BE(file[4..8]) == 1
    ensures var p := ParseV1(file, checkCrc, crc); p.Ok? && Entry(p.m, hash(key), key) == Expected(rows, key)
  {
    var z, disp, slotRow :| Plans(rows, hash, z, disp, slotRow) && file == File(z, Wide(disp), disp, Content(rows, slotRow), crc);
    var content := Content(rows, slotRow);
    KeysDistinct(rows, hash, z, disp, slotRow);
    DataBlockSize(rows, Hashes(rows, hash), z, disp, slotRow);
    ParsesBack(z, Wide(disp), disp, content, crc, checkCrc);
    LookupAgrees(ParseV1(file, checkCrc, crc).m, rows, hash, z, disp, slotRow, crc, key);
  }

  /** Rows that have a file have pairwise different keys, whether or not duplicates were looked for. */
  lemma FileDistinct(rows: seq<Row>, hash: Hash, crc: Crc, file: Bytes)
    requires IsFile(rows, hash, crc, file)
    ensures DistinctKeys(rows)
  {
    var z, disp, slotRow :| Plans(rows, hash, z, disp, slotRow) && file == File(z, Wide(disp), disp, Content(rows, slotRow), crc);
    KeysDistinct(rows, hash, z, disp, slotRow);
  }

  // ------------------------------------------------- independence of row order --

  lemma SameRow(hs: seq<nat>, z: Sizes, disp: seq<nat>, a: seq<nat>, b: seq<nat>, s: nat)
    requires Inverse(hs, z, disp, a) && Inverse(hs, z, disp, b) && s < z.slots
    ensures a[s] != EMPTY ==> b[s] == a[s]
  {
    assert Honest(hs, z, disp, a, s);
    if a[s] != EMPTY {
      assert AtHome(hs, z, disp, b, a[s]);
    }
  }

  lemma SlotRowUnique(hs: seq<nat>, z: Sizes, disp: seq<nat>, a: seq<nat>, b: seq<nat>)
    requires Inverse(hs, z, disp, a) && Inverse(hs, z, disp, b)
    ensures a == b
  {
    forall s | 0 <= s < z.slots
      ensures a[s] == b[s]
    {
      SameRow(hs, z, disp, a, b, s);
      SameRow(hs, z, disp, b, a, s);
    }
  }

  /** There is at most one file for a list of rows. */
  lemma FileUnique(rows: seq<Row>, hash: Hash, crc: Crc, f: Bytes, g: Bytes)
    requires IsFile(rows, hash, crc, f) && IsFile(rows, hash, crc, g)
    ensures f == g
  {
    var hs := Hashes(rows, hash);
    var y, d, a :| Plans(rows, hash, y, d, a) && f == File(y, Wide(d), d, Content(rows, a), crc);
    var z, e, b :| Plans(rows, hash, z, e, b) && g == File(z, Wide(e), e, Content(rows, b), crc);
    SizesUnique(|rows|, y, z);
    var pl :| PlanFor1(hs, z, pl) && pl.disp == d;
    var ql :| PlanFor1(hs, z, ql) && ql.disp == e;
    PlanUnique(Los(hs), Buckets1(hs, z.buckets), z.buckets, Pos1(z.slots), pl, ql);
    SlotRowUnique(hs, z, d, a, b);
  }

  /** The low hash and the bucket of a row. */
  function PairFor(r: Row, hash: Hash, nb: nat): (nat, nat)
    requires nb > 0
  {
    (Lo(hash(r.key)), Hi(hash(r.key)) % nb)
  }

  function PairOf(hash: Hash, nb: nat): Row -> (nat, nat)
    requires nb > 0
  {
    (r: Row) => PairFor(r, hash, nb)
  }

  lemma {:induction false} PairsMapped(rows: seq<Row>, hash: Hash, nb: nat)
    requires nb > 0
    ensures Pairs(Los(Hashes(rows, hash)), Buckets1(Hashes(rows, hash), nb)) == Mapped(rows, PairOf(hash, nb))
  {
    if |rows| > 0 {
      PairsMapped(rows[..|rows| - 1], hash, nb);
    }
  }

  function IndexOf(rows: seq<Row>, row: Row): (i: nat)
    requires row in rows
    ensures i < |rows| && rows[i] == row
  {
    if rows[|rows| - 1] == row then |rows| - 1 else IndexOf(rows[..|rows| - 1], row)
  }

  /** The rows of a content, numbered by another list of the same rows. */
  function Renumber(content: seq<Option<Row>>, rows: seq<Row>): (slotRow: seq<nat>)
    requires forall s | 0 <= s < |content| && content[s].Some? :: content[s].value in rows
    ensures |slotRow| == |content|
    ensures forall s | 0 <= s < |content| :: slotRow[s] == if content[s].Some? then IndexOf(rows, content[s].value) else EMPTY
  {
    seq(|content|, s requires 0 <= s < |content| => if content[s].Some? then IndexOf(rows, content[s].value) else EMPTY)
  }

  lemma PlanKeysDistinct(rows: seq<Row>, hash: Hash, z: Sizes, pl: Plan)
    requires ValidSizes(z) && PlanFor1(Hashes(rows, hash), z, pl)
    ensures DistinctKeys(rows)
  {
    var hs := Hashes(rows, hash);
    forall i, j | 0 <= i < j < |rows|
      ensures rows[i].key != rows[j].key
    {
      PlanInjective(Los(hs), Buckets1(hs, z.buckets), z.buckets, Pos1(z.slots), pl, i, j);
    }
  }

  lemma RenumberedInverse(rows: seq<Row>, rows2: seq<Row>, hash: Hash, z: Sizes, disp: seq<nat>, slotRow: seq<nat>)
    requires |rows| < EMPTY && multiset(rows) == multiset(rows2) && DistinctKeys(rows2) && Inverse(Hashes(rows, hash), z, disp, slotRow)
    ensures forall s | 0 <= s < |slotRow| && Content(rows, slotRow)[s].Some? :: Content(rows, slotRow)[s].value in rows2
    ensures var slotRow2 := Renumber(Content(rows, slotRow), rows2);
      Inverse(Hashes(rows2, hash), z, disp, slotRow2) && Content(rows2, slotRow2) == Content(rows, slotRow)
  {
    var hs, hs2, c := Hashes(rows, hash), Hashes(rows2, hash), Content(rows, slotRow);
    assert |rows| == |multiset(rows)| == |multiset(rows2)| == |rows2|;
    forall s | 0 <= s < |slotRow| && c[s].Some?
      ensures c[s].value in rows2
    {
      assert c[s].value in multiset(rows);
    }
    var slotRow2 := Renumber(c, rows2);
    forall r | 0 <= r < |hs2|
      ensures AtHome(hs2, z, disp, slotRow2, r)
    {
      HomeAgain(rows, rows2, hash, z, disp, slotRow, slotRow2, r);
    }
    forall s | 0 <= s < z.slots
      ensures Honest(hs2, z, disp, slotRow2, s)
    {
      assert Honest(hs, z, disp, slotRow, s);
    }
  }

  lemma HomeAgain(rows: seq<Row>, rows2: seq<Row>, hash: Hash, z: Sizes, disp: seq<nat>, slotRow: seq<nat>, slotRow2: seq<nat>, r: nat)
    requires |rows| < EMPTY && multiset(rows) == multiset(rows2) && DistinctKeys(rows2) && Inverse(Hashes(rows, hash), z, disp, slotRow)
    requires forall s | 0 <= s < |slotRow| && Content(rows, slotRow)[s].Some? :: Content(rows, slotRow)[s].value in rows2
    requires slotRow2 == Renumber(Content(rows, slotRow), rows2) && r < |rows2|
    ensures AtHome(Hashes(rows2, hash), z, disp, slotRow2, r)
  {
    assert rows2[r] in multiset(rows);
    var q :| 0 <= q < |rows| && rows[q] == rows2[r];
    assert AtHome(Hashes(rows, hash), z, disp, slotRow, q);
  }

  /** The displacements of one order of the rows are those of any other. */
  lemma PlanReordered(rows: seq<Row>, rows2: seq<Row>, hash: Hash, z: Sizes, pl: Plan) returns (ql: Plan)
    requires ValidSizes(z) && multiset(rows) == multiset(rows2) && PlanFor1(Hashes(rows, hash), z, pl)
    ensures PlanFor1(Hashes(rows2, hash), z, ql) && ql.disp == pl.disp
  {
    var hs, hs2, nb := Hashes(rows, hash), Hashes(rows2, hash), z.buckets;
    PairsMapped(rows, hash, nb);
    PairsMapped(rows2, hash, nb);
    MappedPermuted(rows, rows2, PairOf(hash, nb));
    PlanPermuted(Los(hs), Buckets1(hs, nb), Los(hs2), Buckets1(hs2, nb), nb, Pos1(z.slots), pl);
    ql := pl.(groups := Regroup(Los(hs2), Buckets1(hs2, nb), nb));
  }

  lemma PlansReordered(rows: seq<Row>, rows2: seq<Row>, hash: Hash, z: Sizes, disp: seq<nat>, slotRow: seq<nat>) returns (slotRow2: seq<nat>)
    requires multiset(rows) == multiset(rows2) && Plans(rows, hash, z, disp, slotRow)
    ensures Plans(rows2, hash, z, disp, slotRow2) && Content(rows2, slotRow2) == Content(rows, slotRow)
  {
    assert |rows| == |multiset(rows)| == |multiset(rows2)| == |rows2|;
    var pl :| PlanFor1(Hashes(rows, hash), z, pl) && pl.disp == disp;
    var ql := PlanReordered(rows, rows2, hash, z, pl);
    PlanKeysDistinct(rows2, hash, z, ql);
    RenumberedInverse(rows, rows2, hash, z, disp, slotRow);
    slotRow2 := Renumber(Content(rows, slotRow), rows2);
    DataBlockSize(rows, Hashes(rows, hash), z, disp, slotRow);
    DataBlockSize(rows2, Hashes(rows2, hash), z, disp, slotRow2);
  }

  /** Permuting the rows changes nothing: byte-identical files, or failure both times. */
  lemma RowOrderIndependent(rows: seq<Row>, rows2: seq<Row>, hash: Hash, crc: Crc, file: Bytes)
    requires multiset(rows) == multiset(rows2) && IsFile(rows, hash, crc, file)
    ensures IsFile(rows2, hash, crc, file)
  {
    var z, disp, slotRow :| Plans(rows, hash, z, disp, slotRow) && file == File(z, Wide(disp), disp, Content(rows, slotRow), crc);
    var slotRow2 := PlansReordered(rows, rows2, hash, z, disp, slotRow);
  }
}
