/** BuildFrom: rows in, or the earliest violation out and nothing changed. */
module Ingest {
  import opened Words
  import opened Rows
  import opened RowStore
  import opened BuilderState
  import opened Duplicates
  import opened CheckedFlag

  /** A row as the parser delivers it. */
  datatype Item = Item(row: Row, line: int)

  datatype BuildError = ParseError | KeyTooLong(line: int) | ValueTooLong(line: int) | Duplicate(firstLine: int, line: int, key: Bytes)

  datatype Result = Accepted | Rejected(error: BuildError)

  // ------------------------------------------------------------- specification --

  function ItemRows(items: seq<Item>): (rows: seq<Row>)
    ensures |rows| == |items| && forall i | 0 <= i < |rows| :: rows[i] == items[i].row
  {
    seq(|items|, i requires 0 <= i < |items| => items[i].row)
  }

  function ItemLines(items: seq<Item>): (lines: seq<int>)
    ensures |lines| == |items| && forall i | 0 <= i < |lines| :: lines[i] == KeptLine(items[i].line)
  {
    seq(|items|, i requires 0 <= i < |items| => KeptLine(items[i].line))
  }

  /** The keys of the rows there are and of the items to come. */
  function AllKeys(base: seq<Bytes>, items: seq<Item>): (keys: seq<Bytes>)
    ensures |keys| == |base| + |items|
  {
    base + seq(|items|, i requires 0 <= i < |items| => items[i].row.key)
  }

  /** Item i breaks a size limit or repeats the key of an earlier row. */
  ghost predicate BadAt(base: seq<Bytes>, items: seq<Item>, i: nat)
    requires i < |items|
  {
    !Storable(items[i].row) || IsRepeat(AllKeys(base, items), |base| + i)
  }

  ghost predicate EarliestBad(base: seq<Bytes>, items: seq<Item>, i: nat) {
    i < |items| && BadAt(base, items, i) && forall j: nat | j < i :: !BadAt(base, items, j)
  }

  /** The first 64 bytes of a key. */
  function Shown(key: Bytes): (r: Bytes)
    ensures |r| <= 64 && |r| <= |key| && r == key[..|r|] && (|r| < 64 ==> r == key)
  {
    if |key| > 64 then key[..64] else key
  }

  function LimitError(item: Item): BuildError {
    if |item.row.key| > MAX_KEY then KeyTooLong(item.line) else ValueTooLong(item.line)
  }

  function DuplicateErrorFor(lines: seq<int>, items: seq<Item>, first: nat, i: nat): BuildError
    requires first < |lines| + |items| && i < |items|
  {
    Duplicate((lines + ItemLines(items))[first], KeptLine(items[i].line), Shown(items[i].row.key))
  }

  /** The error for item i: its limit error, or its duplicate error with the line of the earliest equal row. */
  ghost predicate ErrorFor(base: seq<Bytes>, lines: seq<int>, items: seq<Item>, i: nat, e: BuildError)
    requires i < |items| && |lines| == |base|
  {
    if !Storable(items[i].row) then e == LimitError(items[i])
    else exists first: nat :: first < |base| + i && EarliestEqual(AllKeys(base, items), first, |base| + i) && e == DuplicateErrorFor(lines, items, first, i)
  }

  predicate LinesIncrease(items: seq<Item>) {
    && (forall i | 0 <= i < |items| :: 0 <= items[i].line <= MAX_LINE)
    && (forall i, j | 0 <= i < j < |items| :: items[i].line < items[j].line)
  }

  /** Limits are met by the first k items. */
  predicate WithinLimits(items: seq<Item>, k: nat) {
    k <= |items| && forall i | 0 <= i < k :: Storable(items[i].row)
  }

  // -------------------------------------------------------------------- prefixes --

  /** What has been stored after k items is a prefix of all rows. */
  lemma StoredPrefix(base: seq<Bytes>, items: seq<Item>, k: nat)
    requires k <= |items|
    ensures AllKeys(base, items[..k]) == AllKeys(base, items)[..|base| + k]
  {
  }

  /** The lowest repeat among the stored rows is the earliest violation. */
  lemma RepeatIsEarliest(base: seq<Bytes>, items: seq<Item>, k: nat, stored: seq<Bytes>, r: nat)
    requires WithinLimits(items, k) && stored == AllKeys(base, items[..k]) && LowestRepeat(stored, |base|, r)
    ensures |base| <= r < |base| + k && EarliestBad(base, items, r - |base|)
  {
    StoredPrefix(base, items, k);
    RepeatPrefix(AllKeys(base, items), |base| + k, r);
    forall j: nat | j < r - |base|
      ensures !BadAt(base, items, j)
    {
      RepeatPrefix(AllKeys(base, items), |base| + k, |base| + j);
    }
  }

  /** Without a repeat among the stored rows, none of the first k items is bad. */
  lemma NoneBad(base: seq<Bytes>, items: seq<Item>, k: nat, stored: seq<Bytes>)
    requires WithinLimits(items, k) && stored == AllKeys(base, items[..k]) && NoRepeat(stored, |base|)
    ensures forall j: nat | j < k :: !BadAt(base, items, j)
  {
    StoredPrefix(base, items, k);
    forall j: nat | j < k
      ensures !BadAt(base, items, j)
    {
      RepeatPrefix(AllKeys(base, items), |base| + k, |base| + j);
    }
  }

  /** The duplicate error of a repeat among the stored rows. */
  lemma DuplicateIsError(base: seq<Bytes>, lines: seq<int>, items: seq<Item>, k: nat, stored: seq<Bytes>, first: nat, r: nat)
    requires WithinLimits(items, k) && |lines| == |base| <= r < |base| + k && stored == AllKeys(base, items[..k])
    requires EarliestEqual(stored, first, r)
    ensures first < r && ErrorFor(base, lines, items, r - |base|, DuplicateErrorFor(lines, items, first, r - |base|))
  {
    StoredPrefix(base, items, k);
    RepeatPrefix(AllKeys(base, items), |base| + k, r);
    assert EarliestEqual(AllKeys(base, items), first, r);
  }

  // ---------------------------------------------------------------- the checked flag --

  ghost function LedgerOf(b: Builder): Ledger
    reads b, b.spill
    requires b.Valid()
  {
    Ledger(Keys(b.Contents()), b.checked)
  }

  /** The effect of a BuildFrom with this result. */
  function CallOf(items: seq<Item>, r: Result): Call {
    if r.Accepted? then Built(Keys(ItemRows(items))) else Unchanged
  }

  lemma KeysConcat(a: seq<Row>, b: seq<Row>)
    ensures Keys(a + b) == Keys(a) + Keys(b)
  {
  }

  /** What has been accepted repeats nothing from the mark on. */
  lemma AcceptedRepeatsNothing(base: seq<Bytes>, items: seq<Item>)
    requires forall i: nat | i < |items| :: !BadAt(base, items, i)
    ensures NoRepeat(AllKeys(base, items), |base|)
  {
    forall p: nat | |base| <= p
      ensures !IsRepeat(AllKeys(base, items), p)
    {
      if p < |base| + |items| {
        assert !BadAt(base, items, p - |base|);
      }
    }
  }

  lemma AcceptedDoes(rows0: seq<Row>, checked: nat, items: seq<Item>)
    requires forall i: nat | i < |items| :: !BadAt(Keys(rows0), items, i)
    ensures var rows := rows0 + ItemRows(items);
      Does(Ledger(Keys(rows0), checked), Built(Keys(ItemRows(items))), Ledger(Keys(rows), |rows|))
  {
    AcceptedRepeatsNothing(Keys(rows0), items);
    KeysConcat(rows0, ItemRows(items));
    StoredKeys(rows0, items);
  }

  // ------------------------------------------------------------------- ingesting --

  /** The keys read and the hashes known after i rows. */
  ghost predicate HashedTo(b: Builder, rows: seq<Row>, keys: seq<Bytes>, i: nat)
    reads b, b.spill
  {
    && b.Valid() && b.Contents() == rows && i <= |rows| && keys == Keys(rows)[..i] && |b.hashes| >= i
  }

  /** One round of ensureHashes. */
  method EnsureHash(b: Builder, i: nat, ghost rows: seq<Row>, ghost keys: seq<Bytes>) returns (key: Bytes)
    requires HashedTo(b, rows, keys, i) && i < |rows|
    modifies b`hashes, b.spill
    ensures HashedTo(b, rows, keys + [key], i + 1) && b.Region() == old(b.Region())
  {
    key := b.RowKey(i);
    if |b.hashes| == i {
      b.PushHash(key);
    }
  }

  /** ensureHashes, and the keys it reads on the way */
  method EnsureHashes(b: Builder) returns (keys: seq<Bytes>)
    requires b.Valid()
    modifies b`hashes, b.spill
    ensures b.Valid() && b.Region() == old(b.Region()) && keys == Keys(b.Contents()) && |b.hashes| == |keys|
    ensures forall i | 0 <= i < |keys| :: b.hashes[i] == b.hash(keys[i])
  {
    keys := [];
    ghost var rows := b.Contents();
    for i := 0 to |b.index.offs|
      invariant HashedTo(b, rows, keys, i) && b.Region() == old(b.Region())
    {
      var key := EnsureHash(b, i, rows, keys);
      keys := keys + [key];
    }
  }

  /** firstDuplicate */
  method FirstDuplicate(b: Builder, from: nat) returns (best: Best)
    requires b.Valid()
    modifies b`hashes, b.spill
    ensures b.Valid() && b.Region() == old(b.Region())
    ensures best.Nobody? <==> NoRepeat(Keys(b.Contents()), from)
    ensures best.Best? ==> LowestRepeat(Keys(b.Contents()), from, best.row) && EarliestEqual(Keys(b.Contents()), best.first, best.row)
  {
    var keys := EnsureHashes(b);
    best := FindDuplicate(keys, b.hashes, from);
  }

  /** What has been parsed: the first k items are in the builder, behind the rows there were. */
  ghost predicate Stored(b: Builder, rows0: seq<Row>, lines: seq<int>, items: seq<Item>, k: nat)
    reads b, b.spill
  {
    && b.Valid() && WithinLimits(items, k) && |lines| == |rows0|
    && b.Contents() == rows0 + ItemRows(items[..k]) && b.index.lines == lines + ItemLines(items[..k])
  }

  lemma StoredNext(rows0: seq<Row>, lines: seq<int>, items: seq<Item>, k: nat)
    requires WithinLimits(items, k) && k < |items| && Storable(items[k].row)
    ensures WithinLimits(items, k + 1)
    ensures rows0 + ItemRows(items[..k]) + [items[k].row] == rows0 + ItemRows(items[..k + 1])
    ensures lines + ItemLines(items[..k]) + [KeptLine(items[k].line)] == lines + ItemLines(items[..k + 1])
  {
  }

  lemma StoredKeys(rows0: seq<Row>, items: seq<Item>)
    ensures Keys(rows0 + ItemRows(items)) == AllKeys(Keys(rows0), items)
  {
  }

  /** The state of a call: what has been stored, and the mark it can go back to. */
  ghost predicate Going(b: Builder, rows0: seq<Row>, lines: seq<int>, checked: nat, items: seq<Item>, k: nat, m: Mark, s: Store, x: Index)
    reads b, b.spill
  {
    Stored(b, rows0, lines, items, k) && b.Since(m, s, x) && b.checked == checked
  }

  /** rowSink.add, while no limit has been broken */
  method Take(b: Builder, ghost rows0: seq<Row>, ghost lines: seq<int>, ghost checked: nat, items: seq<Item>, k: nat, passed: nat,
              m: Mark, ghost s: Store, ghost x: Index)
    requires Going(b, rows0, lines, checked, items, k, m, s, x) && k < |items| && Storable(items[k].row)
    modifies b, b.spill
    ensures Going(b, rows0, lines, checked, items, k + 1, m, s, x)
  {
    StoredNext(rows0, lines, items, k);
    b.AppendSince(items[k].row, items[k].line, passed, m, s, x);
  }

  /** The parser's rows go to the sink, which stops storing at the first limit violation, the one at item k. */
  method Parse(b: Builder, ghost rows0: seq<Row>, ghost lines: seq<int>, ghost checked: nat, items: seq<Item>, passed: nat,
               m: Mark, ghost s: Store, ghost x: Index) returns (k: nat)
    requires Going(b, rows0, lines, checked, items, 0, m, s, x)
    modifies b, b.spill
    ensures k <= |items| && Going(b, rows0, lines, checked, items, k, m, s, x) && (k < |items| ==> !Storable(items[k].row))
  {
    k := 0;
    while k < |items| && Storable(items[k].row)
      invariant Going(b, rows0, lines, checked, items, k, m, s, x)
      decreases |items| - k
    {
      Take(b, rows0, lines, checked, items, k, passed, m, s, x);
      k := k + 1;
    }
  }

  /** What BuildFrom owes its caller about an error: the earliest violation, if nothing failed to parse and lines increase. */
  ghost predicate Explains(base: seq<Bytes>, lines: seq<int>, items: seq<Item>, e: BuildError)
    requires |lines| == |base|
  {
    exists i :: EarliestBad(base, items, i) && ErrorFor(base, lines, items, i, e)
  }

  /** No repeat among the stored rows: the limit at k is the earliest violation, if there is one. */
  lemma NobodyVerdict(base: seq<Bytes>, lines: seq<int>, items: seq<Item>, k: nat, stored: seq<Bytes>)
    requires WithinLimits(items, k) && |lines| == |base| && stored == AllKeys(base, items[..k]) && NoRepeat(stored, |base|)
    requires k < |items| ==> !Storable(items[k].row)
    ensures k == |items| ==> forall i: nat | i < |items| :: !BadAt(base, items, i)
    ensures k < |items| ==> BadAt(base, items, k) && Explains(base, lines, items, LimitError(items[k]))
  {
    NoneBad(base, items, k, stored);
    if k < |items| {
      assert EarliestBad(base, items, k) && ErrorFor(base, lines, items, k, LimitError(items[k]));
    }
  }

  /** A line among those of the stored rows. */
  lemma StoredLine(lines: seq<int>, items: seq<Item>, k: nat, r: nat)
    requires k <= |items| && r < |lines| + k
    ensures (lines + ItemLines(items[..k]))[r] == (lines + ItemLines(items))[r]
  {
  }

  /** A repeat among the stored rows: the lowest is the earliest violation, and its line is below the limit's. */
  lemma RepeatVerdict(base: seq<Bytes>, lines: seq<int>, items: seq<Item>, k: nat, stored: seq<Bytes>, kept: seq<int>, first: nat, r: nat)
    requires WithinLimits(items, k) && |lines| == |base| && stored == AllKeys(base, items[..k]) && kept == lines + ItemLines(items[..k])
    requires LowestRepeat(stored, |base|, r) && EarliestEqual(stored, first, r)
    ensures first < r < |kept| && |base| <= r && r - |base| < k && BadAt(base, items, r - |base|)
    ensures LinesIncrease(items) ==> Explains(base, lines, items, Duplicate(kept[first], kept[r], Shown(stored[r])))
    ensures LinesIncrease(items) && k < |items| ==> kept[r] < items[k].line
  {
    RepeatIsEarliest(base, items, k, stored, r);
    StoredLine(lines, items, k, first);
    StoredLine(lines, items, k, r);
    var i := r - |base|;
    if LinesIncrease(items) {
      DuplicateIsError(base, lines, items, k, stored, first, r);
      assert stored[r] == items[i].row.key;
      assert ErrorFor(base, lines, items, i, Duplicate(kept[first], kept[r], Shown(stored[r])));
    }
  }

  /** limitOrDuplicate: the duplicate if its line comes first, the limit error otherwise. */
  predicate DuplicateFirst(line: int, items: seq<Item>, k: nat) {
    k < |items| ==> line < items[k].line
  }

  function LineFirst(d: BuildError, items: seq<Item>, k: nat): BuildError
    requires d.Duplicate?
  {
    if DuplicateFirst(d.line, items, k) then d else LimitError(items[k])
  }

  /** A repeat among the stored rows is reported, unless the limit at k comes on an earlier line or the same one. */
  ghost predicate LimitOrDuplicate(stored: seq<Bytes>, kept: seq<int>, from: nat, items: seq<Item>, k: nat, r: Result) {
    forall first, row | LowestRepeat(stored, from, row) && EarliestEqual(stored, first, row) ::
      ReportsRepeat(stored, kept, items, k, first, row, r)
  }

  predicate ReportsRepeat(stored: seq<Bytes>, kept: seq<int>, items: seq<Item>, k: nat, first: nat, row: nat, r: Result) {
    && first < |kept| && row < |kept| && row < |stored|
    && r == Rejected(LineFirst(Duplicate(kept[first], kept[row], Shown(stored[row])), items, k))
  }

  lemma OnlyRepeat(stored: seq<Bytes>, kept: seq<int>, from: nat, items: seq<Item>, k: nat, first: nat, row: nat, r: Result)
    requires LowestRepeat(stored, from, row) && EarliestEqual(stored, first, row) && ReportsRepeat(stored, kept, items, k, first, row, r)
    ensures LimitOrDuplicate(stored, kept, from, items, k, r)
  {
  }

  lemma NoneRepeats(stored: seq<Bytes>, kept: seq<int>, from: nat, items: seq<Item>, k: nat, r: Result)
    requires NoRepeat(stored, from)
    ensures LimitOrDuplicate(stored, kept, from, items, k, r)
  {
  }

  /** The duplicate error for two rows of the builder. */
  method ReadDuplicate(b: Builder, first: nat, row: nat) returns (d: BuildError)
    requires b.Valid() && first < |b.index.lines| && row < |b.index.offs|
    modifies b.spill
    ensures b.Valid() && b.Region() == old(b.Region())
    ensures d == Duplicate(b.index.lines[first], b.index.lines[row], Shown(Keys(b.Contents())[row]))
  {
    var key := b.RowKey(row);
    d := Duplicate(b.index.lines[first], b.index.lines[row], Shown(key));
  }

  /** What is said about the items, k of them stored behind the rows there were. */
  ghost predicate Judged(base: seq<Bytes>, lines: seq<int>, items: seq<Item>, k: nat, stored: seq<Bytes>, kept: seq<int>, r: Result)
    requires |lines| == |base|
  {
    && (r.Accepted? <==> forall i: nat | i < |items| :: !BadAt(base, items, i))
    && (r.Rejected? && LinesIncrease(items) ==> Explains(base, lines, items, r.error))
    && LimitOrDuplicate(stored, kept, |base|, items, k, r)
  }

  lemma NobodyJudged(base: seq<Bytes>, lines: seq<int>, items: seq<Item>, k: nat, stored: seq<Bytes>, kept: seq<int>, r: Result)
    requires WithinLimits(items, k) && |lines| == |base| && stored == AllKeys(base, items[..k]) && NoRepeat(stored, |base|)
    requires k < |items| ==> !Storable(items[k].row)
    requires r == if k < |items| then Rejected(LimitError(items[k])) else Accepted
    ensures Judged(base, lines, items, k, stored, kept, r)
  {
    NobodyVerdict(base, lines, items, k, stored);
    NoneRepeats(stored, kept, |base|, items, k, r);
  }

  lemma RepeatJudged(base: seq<Bytes>, lines: seq<int>, items: seq<Item>, k: nat, stored: seq<Bytes>, kept: seq<int>, first: nat, row: nat, r: Result)
    requires WithinLimits(items, k) && |lines| == |base| && stored == AllKeys(base, items[..k]) && kept == lines + ItemLines(items[..k])
    requires LowestRepeat(stored, |base|, row) && EarliestEqual(stored, first, row) && ReportsRepeat(stored, kept, items, k, first, row, r)
    ensures Judged(base, lines, items, k, stored, kept, r)
  {
    RepeatVerdict(base, lines, items, k, stored, kept, first, row);
    OnlyRepeat(stored, kept, |base|, items, k, first, row, r);
  }

  /** What the parser has left to be judged, as values. */
  ghost predicate ToJudge(base: seq<Bytes>, lines: seq<int>, items: seq<Item>, k: nat, stored: seq<Bytes>, kept: seq<int>) {
    && WithinLimits(items, k) && |lines| == |base| && stored == AllKeys(base, items[..k]) && kept == lines + ItemLines(items[..k])
    && (k < |items| ==> !Storable(items[k].row))
  }

  lemma StoredToJudge(b: Builder, rows0: seq<Row>, base: seq<Bytes>, lines: seq<int>, items: seq<Item>, k: nat)
    requires Stored(b, rows0, lines, items, k) && base == Keys(rows0) && (k < |items| ==> !Storable(items[k].row))
    ensures ToJudge(base, lines, items, k, Keys(b.Contents()), b.index.lines)
  {
    StoredKeys(rows0, items[..k]);
  }

  /** The error for a repeat among the stored rows. */
  method JudgeRepeat(b: Builder, ghost base: seq<Bytes>, ghost lines: seq<int>, items: seq<Item>, k: nat, first: nat, row: nat) returns (r: Result)
    requires b.Valid() && ToJudge(base, lines, items, k, Keys(b.Contents()), b.index.lines)
    requires LowestRepeat(Keys(b.Contents()), |base|, row) && EarliestEqual(Keys(b.Contents()), first, row)
    modifies b.spill
    ensures b.Valid() && b.Region() == old(b.Region())
    ensures Judged(base, lines, items, k, Keys(b.Contents()), b.index.lines, r)
  {
    ghost var stored, kept := Keys(b.Contents()), b.index.lines;
    RepeatVerdict(base, lines, items, k, stored, kept, first, row);
    var d := ReadDuplicate(b, first, row);
    r := if k < |items| && !(d.line < items[k].line) then Rejected(LimitError(items[k])) else Rejected(d);
    assert ReportsRepeat(stored, kept, items, k, first, row, r);
    RepeatJudged(base, lines, items, k, stored, kept, first, row, r);
  }

  /** firstDuplicate and limitOrDuplicate: the error for what has been stored and the limit at k, if any. */
  method Judge(b: Builder, ghost base: seq<Bytes>, ghost lines: seq<int>, items: seq<Item>, k: nat, from: nat) returns (r: Result)
    requires b.Valid() && from == |base| && ToJudge(base, lines, items, k, Keys(b.Contents()), b.index.lines)
    modifies b`hashes, b.spill
    ensures b.Valid() && b.Region() == old(b.Region())
    ensures Judged(base, lines, items, k, Keys(b.Contents()), b.index.lines, r)
  {
    var best := FirstDuplicate(b, from);
    if best.Nobody? {
      r := if k < |items| then Rejected(LimitError(items[k])) else Accepted;
      NobodyJudged(base, lines, items, k, Keys(b.Contents()), b.index.lines, r);
    } else {
      r := JudgeRepeat(b, base, lines, items, k, best.first, best.row);
    }
  }

  /** Whether the items are acceptable, and if not, why. */
  ghost predicate Verdict(base: seq<Bytes>, lines: seq<int>, items: seq<Item>, parseFails: bool, r: Result)
    requires |lines| == |base|
  {
    && (r.Accepted? <==> !parseFails && forall i: nat | i < |items| :: !BadAt(base, items, i))
    && (parseFails ==> r == Rejected(ParseError))
    && (r.Rejected? && !parseFails && LinesIncrease(items) ==> Explains(base, lines, items, r.error))
  }

  /** The verdict on what has been parsed. */
  method Decide(b: Builder, ghost rows0: seq<Row>, ghost lines: seq<int>, ghost checked: nat, items: seq<Item>, k: nat, parseFails: bool,
                m: Mark, ghost s: Store, ghost x: Index) returns (r: Result)
    requires Going(b, rows0, lines, checked, items, k, m, s, x) && m.rows == |rows0| && (k < |items| ==> !Storable(items[k].row))
    modifies b`hashes, b.spill
    ensures b.Valid() && b.Since(m, s, x) && Verdict(Keys(rows0), lines, items, parseFails, r)
    ensures r.Accepted? ==> b.Contents() == rows0 + ItemRows(items)
  {
    if parseFails {
      return Rejected(ParseError);
    }
    StoredToJudge(b, rows0, Keys(rows0), lines, items, k);
    r := Judge(b, Keys(rows0), lines, items, k, m.rows);
    if r.Accepted? {
      AllStored(Keys(rows0), items, k);
    }
  }

  /** Roll back, or take the rows as checked. */
  method Settle(b: Builder, r: Result, m: Mark, ghost s: Store, ghost x: Index)
    requires b.Valid() && b.Since(m, s, x)
    modifies b, b.spill
    ensures b.Valid()
    ensures r.Rejected? ==> b.Region() == s && b.index == x && b.checked == if old(b.checked) > m.rows then m.rows else old(b.checked)
    ensures r.Accepted? ==> b.Contents() == old(b.Contents()) && b.checked == |b.index.offs|
  {
    if r.Rejected? {
      b.Rollback(m, s, x);
    } else {
      b.SetChecked();
    }
  }

  /** The end of a call: verdict, then rollback or not. */
  method Complete(b: Builder, ghost rows0: seq<Row>, ghost lines: seq<int>, ghost checked: nat, items: seq<Item>, k: nat, parseFails: bool,
                  m: Mark, ghost s: Store, ghost x: Index) returns (r: Result)
    requires Going(b, rows0, lines, checked, items, k, m, s, x) && m.rows == |rows0| >= checked && (k < |items| ==> !Storable(items[k].row))
    modifies b, b.spill
    ensures b.Valid() && Verdict(Keys(rows0), lines, items, parseFails, r)
    ensures r.Rejected? ==> b.Region() == s && b.index == x && b.checked == checked
    ensures r.Accepted? ==> b.Contents() == rows0 + ItemRows(items) && b.checked == |b.index.offs|
  {
    r := Decide(b, rows0, lines, checked, items, k, parseFails, m, s, x);
    Settle(b, r, m, s, x);
  }

  /** The start of a call. */
  method Begin(b: Builder, ghost rows0: seq<Row>, ghost lines: seq<int>, items: seq<Item>) returns (m: Mark)
    requires b.Valid() && rows0 == b.Contents() && lines == b.index.lines
    ensures Going(b, rows0, lines, b.checked, items, 0, m, b.Region(), b.index) && m.rows == |rows0|
  {
    m := b.TakeMark();
    Nothing(rows0, lines, items);
  }

  /**
   BuildFrom: a parse error anywhere wins; otherwise the earliest item that breaks a limit or repeats a key is reported.
   On any error the rows are those from before the call.
  */
  method BuildFrom(b: Builder, items: seq<Item>, parseFails: bool, passed: nat) returns (r: Result)
    requires b.Valid()
    modifies b, b.spill
    ensures b.Valid() && Verdict(Keys(old(b.Contents())), old(b.index.lines), items, parseFails, r)
    ensures r.Rejected? ==> b.Contents() == old(b.Contents()) && b.index == old(b.index) && b.checked == old(b.checked)
    ensures r.Accepted? ==> b.Contents() == old(b.Contents()) + ItemRows(items) && b.checked == |b.Contents()|
    ensures Does(old(LedgerOf(b)), CallOf(items, r), LedgerOf(b))
  {
    ghost var rows0, lines, checked, s, x := b.Contents(), b.index.lines, b.checked, b.Region(), b.index;
    var m := Begin(b, rows0, lines, items);
    var k := Parse(b, rows0, lines, checked, items, passed, m, s, x);
    r := Complete(b, rows0, lines, checked, items, k, parseFails, m, s, x);
    if r.Accepted? {
      AcceptedDoes(rows0, checked, items);
    }
  }

  lemma Nothing(rows0: seq<Row>, lines: seq<int>, items: seq<Item>)
    ensures rows0 + ItemRows(items[..0]) == rows0 && lines + ItemLines(items[..0]) == lines
  {
  }

  lemma AllStored(base: seq<Bytes>, items: seq<Item>, k: nat)
    requires WithinLimits(items, k) && (forall i: nat | i < |items| :: !BadAt(base, items, i)) && (k < |items| ==> !Storable(items[k].row))
    ensures k == |items| && items[..k] == items
  {
    assert k < |items| ==> !BadAt(base, items, k);
  }
}
