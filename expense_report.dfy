/** The expense report search: the first pair, and the first trio, of entries
    that sum to 2020. Entries are visited row-major over the full cross
    product, so an entry may be paired with itself. */
module ExpenseReports {
  import opened Wrappers

  const Target: int := 2020

  /** No entry at an index in `[lo, hi)` completes `x` to `total`. */
  ghost predicate RowMisses(entries: seq<int>, x: int, total: int, lo: int, hi: int)
    requires 0 <= lo && hi <= |entries|
  {
    forall j :: lo <= j < hi ==> x + entries[j] != total
  }

  /** No pair whose first index is in `[lo, hi)` sums to `total`. */
  ghost predicate PairRowsMiss(entries: seq<int>, total: int, lo: int, hi: int)
    requires 0 <= lo && hi <= |entries|
  {
    forall i :: lo <= i < hi ==> RowMisses(entries, entries[i], total, 0, |entries|)
  }

  /** No triple whose first index is in `[lo, hi)` sums to `total`. */
  ghost predicate TrioRowsMiss(entries: seq<int>, total: int, lo: int, hi: int)
    requires 0 <= lo && hi <= |entries|
  {
    forall i :: lo <= i < hi ==> PairRowsMiss(entries, total - entries[i], 0, |entries|)
  }

  /** `(i, j)` is the first index pair, in row-major order, whose entries sum
      to `total`. */
  ghost predicate IsFirstPair(entries: seq<int>, total: int, i: int, j: int) {
    && 0 <= i < |entries| && 0 <= j < |entries|
    && entries[i] + entries[j] == total
    && PairRowsMiss(entries, total, 0, i)
    && RowMisses(entries, entries[i], total, 0, j)
  }

  /** `(i, j, k)` is the first index triple, in row-major order, whose entries
      sum to `total`. */
  ghost predicate IsFirstTrio(entries: seq<int>, total: int, i: int, j: int, k: int) {
    && 0 <= i < |entries|
    && TrioRowsMiss(entries, total, 0, i)
    && IsFirstPair(entries, total - entries[i], j, k)
  }

  /** The first index from `from` on whose entry completes `x` to `total`. */
  function Partner(entries: seq<int>, x: int, total: int, from: nat): (r: Option<nat>)
    requires from <= |entries|
    ensures r.Some? ==>
      && from <= r.value < |entries| && x + entries[r.value] == total
      && RowMisses(entries, x, total, from, r.value)
    ensures r.None? ==> RowMisses(entries, x, total, from, |entries|)
    decreases |entries| - from
  {
    if from == |entries| then None
    else if x + entries[from] == total then Some(from)
    else Partner(entries, x, total, from + 1)
  }

  /** The first index pair whose first index is at least `from`. */
  function PairFrom(entries: seq<int>, total: int, from: nat): (r: Option<(nat, nat)>)
    requires from <= |entries|
    ensures r.Some? ==>
      && from <= r.value.0 < |entries| && r.value.1 < |entries|
      && entries[r.value.0] + entries[r.value.1] == total
      && PairRowsMiss(entries, total, from, r.value.0)
      && RowMisses(entries, entries[r.value.0], total, 0, r.value.1)
    ensures r.None? ==> PairRowsMiss(entries, total, from, |entries|)
    decreases |entries| - from
  {
    if from == |entries| then None
    else
      match Partner(entries, entries[from], total, 0)
      case Some(j) => Some((from, j))
      case None => PairFrom(entries, total, from + 1)
  }

  /** The first index triple whose first index is at least `from`. */
  function TrioFrom(entries: seq<int>, total: int, from: nat): (r: Option<(nat, nat, nat)>)
    requires from <= |entries|
    ensures r.Some? ==>
      && from <= r.value.0 < |entries|
      && TrioRowsMiss(entries, total, from, r.value.0)
      && IsFirstPair(entries, total - entries[r.value.0], r.value.1, r.value.2)
    ensures r.None? ==> TrioRowsMiss(entries, total, from, |entries|)
    decreases |entries| - from
  {
    if from == |entries| then None
    else
      match PairFrom(entries, total - entries[from], 0)
      case Some((j, k)) => Some((from, j, k))
      case None =>
        var r := TrioFrom(entries, total, from + 1);
        TrioRowsMissExtend(entries, total, from, if r.Some? then r.value.0 else |entries|);
        r
  }

  /** A row that misses extends the rows that miss after it by one. */
  lemma TrioRowsMissExtend(entries: seq<int>, total: int, from: nat, hi: nat)
    requires from < |entries| && from + 1 <= hi <= |entries|
    requires PairRowsMiss(entries, total - entries[from], 0, |entries|)
    requires TrioRowsMiss(entries, total, from + 1, hi)
    ensures TrioRowsMiss(entries, total, from, hi)
  {
  }

  /** When no row misses nothing, no three entries sum to `total`. */
  lemma TrioRowsMissAll(entries: seq<int>, total: int)
    requires TrioRowsMiss(entries, total, 0, |entries|)
    ensures forall i, j, k :: 0 <= i < |entries| && 0 <= j < |entries| && 0 <= k < |entries| ==>
      entries[i] + entries[j] + entries[k] != total
  {
  }

  /** The first pair of entries, row-major, that sums to 2020. */
  function FindExpenseReportEntryPair(entries: seq<int>): (r: Option<(int, int)>)
    ensures r.None? <==>
      forall i, j :: 0 <= i < |entries| && 0 <= j < |entries| ==> entries[i] + entries[j] != Target
    ensures r.Some? ==>
      exists i, j :: IsFirstPair(entries, Target, i, j) && r.value == (entries[i], entries[j])
  {
    match PairFrom(entries, Target, 0)
    case None => None
    case Some((i, j)) =>
      assert IsFirstPair(entries, Target, i, j);
      Some((entries[i], entries[j]))
  }

  /** The first trio of entries, row-major, that sums to 2020. */
  function FindExpenseReportEntryTrio(entries: seq<int>): (r: Option<(int, int, int)>)
    ensures r.None? <==>
      forall i, j, k :: 0 <= i < |entries| && 0 <= j < |entries| && 0 <= k < |entries| ==>
        entries[i] + entries[j] + entries[k] != Target
    ensures r.Some? ==>
      exists i, j, k ::
        && IsFirstTrio(entries, Target, i, j, k)
        && r.value == (entries[i], entries[j], entries[k])
  {
    match TrioFrom(entries, Target, 0)
    case None =>
      TrioRowsMissAll(entries, Target);
      None
    case Some((i, j, k)) =>
      assert IsFirstTrio(entries, Target, i, j, k);
      assert entries[i] + entries[j] + entries[k] == Target;
      Some((entries[i], entries[j], entries[k]))
  }

  /** A single entry of 1010 pairs with itself, and is its own partner twice
      over in no trio. */
  lemma SelfPairExample(entries: seq<int>)
    requires entries == [1010]
    ensures FindExpenseReportEntryPair(entries) == Some((1010, 1010))
    ensures FindExpenseReportEntryTrio(entries) == None
  {
    assert PairFrom(entries, Target, 0) == Some((0, 0));
  }

  /** The puzzle's example report: 1721 and 299 make the first pair. */
  lemma PairExample(entries: seq<int>)
    requires entries == [1721, 979, 366, 299, 675, 1456]
    ensures FindExpenseReportEntryPair(entries) == Some((1721, 299))
  {
    assert Partner(entries, 1721, Target, 3) == Some(3);
    assert Partner(entries, 1721, Target, 1) == Some(3);
    assert PairFrom(entries, Target, 0) == Some((0, 3));
  }

  /** The puzzle's example report: 979, 366 and 675 make the first trio. */
  lemma TrioExample(entries: seq<int>)
    requires entries == [1721, 979, 366, 299, 675, 1456]
    ensures FindExpenseReportEntryTrio(entries) == Some((979, 366, 675))
  {
    TrioExampleFirstRow(entries);
    TrioExampleSecondRow(entries);
    assert TrioFrom(entries, Target, 1) == Some((1, 2, 4));
  }

  lemma TrioExampleFirstRow(entries: seq<int>)
    requires entries == [1721, 979, 366, 299, 675, 1456]
    ensures PairFrom(entries, Target - 1721, 0) == None
  {
    assert forall i, j :: 0 <= i < |entries| && 0 <= j < |entries| ==> entries[i] + entries[j] >= 598;
  }

  lemma TrioExampleSecondRow(entries: seq<int>)
    requires entries == [1721, 979, 366, 299, 675, 1456]
    ensures PairFrom(entries, Target - 979, 0) == Some((2, 4))
  {
    assert Partner(entries, 366, Target - 979, 4) == Some(4);
    assert Partner(entries, 366, Target - 979, 1) == Some(4);
    assert Partner(entries, 1721, Target - 979, 0) == None;
    assert Partner(entries, 979, Target - 979, 0) == None;
    assert PairFrom(entries, Target - 979, 1) == Some((2, 4));
  }
}
