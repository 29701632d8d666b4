/**
  Sorting a received chain by block index, as `blocks.sort((a, b) => a.index - b.index)`
  does: a stable insertion sort on an immutable sequence.
*/
module IndexSort {
  import opened Blocks

  /** Indices never decrease along the sequence. */
  predicate SortedByIndex(s: seq<Block>) {
    forall i, j :: 0 <= i < j < |s| ==> s[i].index <= s[j].index
  }

  /** Every element of `s` has an index at least `k`. */
  predicate AllAtLeast(s: seq<Block>, k: int) {
    forall i :: 0 <= i < |s| ==> k <= s[i].index
  }

  /** A lower bound on indices survives any rearrangement of the elements. */
  lemma AllAtLeastPermutation(s: seq<Block>, t: seq<Block>, k: int)
    requires multiset(s) == multiset(t)
    requires AllAtLeast(s, k)
    ensures AllAtLeast(t, k)
  {
    forall i | 0 <= i < |t|
      ensures k <= t[i].index
    {
      assert t[i] in multiset(t);
      assert t[i] in multiset(s);
      var j :| 0 <= j < |s| && s[j] == t[i];
    }
  }

  /** Putting a block in front of a sorted sequence whose indices are all at least its own keeps it sorted. */
  lemma ConsSorted(x: Block, t: seq<Block>)
    requires SortedByIndex(t) && AllAtLeast(t, x.index)
    ensures SortedByIndex([x] + t)
  {
    var r := [x] + t;
    forall i, j | 0 <= i < j < |r|
      ensures r[i].index <= r[j].index
    {
      assert r[j] == t[j - 1];
      if i > 0 {
        assert r[i] == t[i - 1];
      }
    }
  }

  /** Inserts `b` in front of the first element whose index is not smaller. */
  function Insert(b: Block, s: seq<Block>): (r: seq<Block>)
    requires SortedByIndex(s)
    ensures SortedByIndex(r)
    ensures multiset(r) == multiset(s) + multiset{b}
    ensures |r| == |s| + 1
  {
    if s == [] || b.index <= s[0].index then
      assert AllAtLeast(s, b.index);
      ConsSorted(b, s);
      [b] + s
    else
      var rest := Insert(b, s[1..]);
      assert s == [s[0]] + s[1..];
      assert AllAtLeast(s[1..] + [b], s[0].index);
      assert multiset(s[1..] + [b]) == multiset(rest);
      AllAtLeastPermutation(s[1..] + [b], rest, s[0].index);
      ConsSorted(s[0], rest);
      [s[0]] + rest
  }

  /** The blocks of `s` in ascending index order; equal indices keep their relative order. */
  function SortByIndex(s: seq<Block>): (r: seq<Block>)
    ensures SortedByIndex(r)
    ensures multiset(r) == multiset(s)
    ensures |r| == |s|
  {
    if s == [] then []
    else
      assert s == [s[0]] + s[1..];
      Insert(s[0], SortByIndex(s[1..]))
  }

  /** A sequence already in index order comes back unchanged. */
  lemma {:induction false} SortSortedIsIdentity(s: seq<Block>)
    requires SortedByIndex(s)
    ensures SortByIndex(s) == s
  {
    if s != [] {
      SortSortedIsIdentity(s[1..]);
      assert s == [s[0]] + s[1..];
    }
  }

  /** The blocks of `s` whose index is `k`, in their order in `s`. */
  function WithIndex(s: seq<Block>, k: int): seq<Block> {
    if s == [] then []
    else (if s[0].index == k then [s[0]] else []) + WithIndex(s[1..], k)
  }

  /** The filter of a sequence with one block in front. */
  lemma WithIndexCons(x: Block, t: seq<Block>, k: int)
    ensures WithIndex([x] + t, k) == (if x.index == k then [x] else []) + WithIndex(t, k)
  {
    assert ([x] + t)[1..] == t;
  }

  /** Inserting `b` puts it ahead of every block that shares its index. */
  lemma {:induction false} InsertKeepsOrderOfEquals(b: Block, s: seq<Block>, k: int)
    requires SortedByIndex(s)
    ensures WithIndex(Insert(b, s), k) == (if b.index == k then [b] else []) + WithIndex(s, k)
  {
    if s == [] || b.index <= s[0].index {
      WithIndexCons(b, s, k);
    } else {
      var rest := Insert(b, s[1..]);
      InsertKeepsOrderOfEquals(b, s[1..], k);
      WithIndexCons(s[0], rest, k);
      WithIndexCons(s[0], s[1..], k);
      assert s == [s[0]] + s[1..];
      FiltersCommute(s[0], b, WithIndex(s[1..], k), k);
    }
  }

  /** Two blocks with different indices pass the filter at most one at a time, so their order does not matter. */
  lemma FiltersCommute(x: Block, y: Block, t: seq<Block>, k: int)
    requires x.index != y.index
    ensures (if x.index == k then [x] else []) + ((if y.index == k then [y] else []) + t)
         == (if y.index == k then [y] else []) + ((if x.index == k then [x] else []) + t)
  {
  }

  /** The sort is stable: blocks sharing an index keep their relative order. */
  lemma {:induction false} SortIsStable(s: seq<Block>, k: int)
    ensures WithIndex(SortByIndex(s), k) == WithIndex(s, k)
  {
    if s != [] {
      SortIsStable(s[1..], k);
      InsertKeepsOrderOfEquals(s[0], SortByIndex(s[1..]), k);
    }
  }

}
