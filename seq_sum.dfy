/** Sums of integer sequences, shared by the Fenwick tree and the disjoint sparse table. */
module SeqSum {

  /** Sum of a sequence. */
  function Total(s: seq<int>): int {
    if |s| == 0 then 0 else Total(s[..|s| - 1]) + s[|s| - 1]
  }

  lemma TotalAppend(s: seq<int>, k: nat)
    requires k < |s|
    ensures Total(s[..k + 1]) == Total(s[..k]) + s[k]
  {
    assert s[..k + 1][..k] == s[..k];
  }

  /** Sums over adjacent ranges add up. */
  lemma {:induction false} TotalSplit(s: seq<int>, lo: nat, mid: nat, hi: nat)
    requires lo <= mid <= hi <= |s|
    ensures Total(s[lo..hi]) == Total(s[lo..mid]) + Total(s[mid..hi])
    decreases hi
  {
    if mid < hi {
      TotalSplit(s, lo, mid, hi - 1);
      assert s[lo..hi][..hi - 1 - lo] == s[lo..hi - 1];
      assert s[mid..hi][..hi - 1 - mid] == s[mid..hi - 1];
    } else {
      assert s[mid..hi] == [];
    }
  }

  /** Prepending an element adds it to the sum. */
  lemma TotalPrepend(s: seq<int>, lo: nat, hi: nat)
    requires lo < hi <= |s|
    ensures Total(s[lo..hi]) == s[lo] + Total(s[lo + 1..hi])
  {
    TotalSplit(s, lo, lo + 1, hi);
    assert s[lo..lo + 1] == [s[lo]];
    assert [s[lo]][..0] == [];
  }

  /** Appending the element at `hi` adds it to the sum. */
  lemma TotalExtend(s: seq<int>, lo: nat, hi: nat)
    requires lo <= hi < |s|
    ensures Total(s[lo..hi + 1]) == Total(s[lo..hi]) + s[hi]
  {
    assert s[lo..hi + 1][..hi - lo] == s[lo..hi];
  }
}
