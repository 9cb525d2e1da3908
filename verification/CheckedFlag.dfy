/** The `checked` count: when rows [0, checked) really are duplicate-free, over any sequence of calls. */
module CheckedFlag {
  import opened Words
  import opened Duplicates

  /** What the flag is about: the keys of all rows, and how many rows are taken as checked. */
  datatype Ledger = Ledger(keys: seq<Bytes>, checked: nat)

  /** Calls by their effect: Add, an accepted BuildFrom, a compile that passed duplicate detection, a call that changed nothing. */
  datatype Call = Added(key: Bytes) | Built(keys: seq<Bytes>) | Detected | Unchanged

  ghost predicate Does(l: Ledger, c: Call, t: Ledger) {
    match c
    case Added(key) => t == Ledger(l.keys + [key], l.checked)
    case Built(keys) => t == Ledger(l.keys + keys, |l.keys + keys|) && NoRepeat(t.keys, |l.keys|)
    case Detected => t == Ledger(l.keys, |l.keys|) && NoRepeat(l.keys, l.checked)
    case Unchanged => t == l
  }

  ghost predicate DuplicateFree(keys: seq<Bytes>) {
    NoRepeat(keys, 0)
  }

  /** Rows [0, checked) are duplicate-free. */
  ghost predicate Truthful(l: Ledger) {
    l.checked <= |l.keys| && DuplicateFree(l.keys[..l.checked])
  }

  lemma RepeatPrefix(keys: seq<Bytes>, n: nat, r: nat)
    requires r < n <= |keys|
    ensures IsRepeat(keys[..n], r) <==> IsRepeat(keys, r)
    ensures forall q: nat :: Repeats(keys[..n], q, r) <==> Repeats(keys, q, r)
  {
    forall q: nat
      ensures Repeats(keys[..n], q, r) <==> Repeats(keys, q, r)
    {
    }
  }

  /** Detection from `mark` on settles all rows exactly if the rows before it were duplicate-free. */
  lemma FromMark(keys: seq<Bytes>, mark: nat)
    requires mark <= |keys| && NoRepeat(keys, mark)
    ensures DuplicateFree(keys) <==> DuplicateFree(keys[..mark])
  {
    forall r: nat | r < mark
      ensures IsRepeat(keys[..mark], r) <==> IsRepeat(keys, r)
    {
      RepeatPrefix(keys, mark, r);
    }
  }

  lemma PrefixFree(keys: seq<Bytes>, n: nat)
    requires n <= |keys| && DuplicateFree(keys)
    ensures DuplicateFree(keys[..n])
  {
    forall r: nat
      ensures !IsRepeat(keys[..n], r)
    {
      if r < n {
        RepeatPrefix(keys, n, r);
      }
    }
  }

  /** One call: only an accepted BuildFrom can make the flag wrong, exactly when earlier rows held a duplicate. */
  lemma TruthAfter(l: Ledger, c: Call, t: Ledger)
    requires l.checked <= |l.keys| && Does(l, c, t)
    ensures t.checked <= |t.keys|
    ensures Truthful(t) <==> if c.Built? then DuplicateFree(l.keys) else Truthful(l)
  {
    match c {
      case Added(key) => assert t.keys[..t.checked] == l.keys[..l.checked];
      case Built(keys) =>
        FromMark(t.keys, |l.keys|);
        assert t.keys[..|l.keys|] == l.keys && t.keys[..t.checked] == t.keys;
      case Detected =>
        FromMark(l.keys, l.checked);
        assert t.keys[..t.checked] == t.keys;
      case Unchanged =>
    }
  }

  /** A history of calls on a new builder. */
  ghost predicate IsHistory(ls: seq<Ledger>, cs: seq<Call>) {
    && |ls| == |cs| + 1 && ls[0] == Ledger([], 0)
    && forall j | 0 <= j < |cs| :: Does(ls[j], cs[j], ls[j + 1])
  }

  lemma HistoryPrefix(ls: seq<Ledger>, cs: seq<Call>)
    requires IsHistory(ls, cs) && |cs| > 0
    ensures IsHistory(ls[..|cs|], cs[..|cs| - 1])
  {
    forall j | 0 <= j < |cs| - 1
      ensures Does(ls[..|cs|][j], cs[..|cs| - 1][j], ls[..|cs|][j + 1])
    {
      assert Does(ls[j], cs[j], ls[j + 1]);
    }
  }

  /** Rows are only ever added. */
  lemma {:induction false} KeysGrow(ls: seq<Ledger>, cs: seq<Call>, i: nat)
    requires IsHistory(ls, cs) && i < |ls|
    ensures |ls[i].keys| <= |ls[|cs|].keys| && ls[|cs|].keys[..|ls[i].keys|] == ls[i].keys
  {
    var n := |cs|;
    if i < n {
      HistoryPrefix(ls, cs);
      KeysGrow(ls[..n], cs[..n - 1], i);
      assert Does(ls[n - 1], cs[n - 1], ls[n - 1 + 1]);
    }
  }

  lemma {:induction false} CheckedBound(ls: seq<Ledger>, cs: seq<Call>)
    requires IsHistory(ls, cs)
    ensures ls[|cs|].checked <= |ls[|cs|].keys|
  {
    var n := |cs|;
    if n > 0 {
      HistoryPrefix(ls, cs);
      CheckedBound(ls[..n], cs[..n - 1]);
      assert Does(ls[n - 1], cs[n - 1], ls[n - 1 + 1]);
    }
  }

  /** After any history of calls the flag tells the truth if and only if every accepted BuildFrom started on duplicate-free rows. */
  lemma {:induction false} TruthfulIff(ls: seq<Ledger>, cs: seq<Call>)
    requires IsHistory(ls, cs)
    ensures Truthful(ls[|cs|]) <==> forall j | 0 <= j < |cs| && cs[j].Built? :: DuplicateFree(ls[j].keys)
  {
    var n := |cs|;
    if n > 0 {
      HistoryPrefix(ls, cs);
      TruthfulIff(ls[..n], cs[..n - 1]);
      CheckedBound(ls[..n], cs[..n - 1]);
      assert Does(ls[n - 1], cs[n - 1], ls[n - 1 + 1]);
      TruthAfter(ls[n - 1], cs[n - 1], ls[n]);
      if cs[n - 1].Built? && DuplicateFree(ls[n - 1].keys) {
        forall j | 0 <= j < n && cs[j].Built?
          ensures DuplicateFree(ls[j].keys)
        {
          KeysGrow(ls[..n], cs[..n - 1], j);
          PrefixFree(ls[n - 1].keys, |ls[j].keys|);
        }
      }
    } else {
      assert ls[0].keys[..0] == [];
    }
  }
}
