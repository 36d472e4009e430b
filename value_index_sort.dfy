/**
  Values paired with their original positions, and the sort by value that
  both Two Sum sorting variants apply to them: Python's list of tuples
  (value, index) sorted with key=value, and C's ValueIndex array handed to
  qsort. The sort is an insertion sort that puts an element after every
  element of equal value, so it is stable; Python's sort is stable too,
  so on these inputs the two produce the same order.
*/
module ValueIndexSort {

  datatype ValueIndex = ValueIndex(value: int, index: int)

  /** The pairs (nums[i], i) for every position i. */
  function Indexed(nums: seq<int>): seq<ValueIndex>
  {
    seq(|nums|, i requires 0 <= i < |nums| => ValueIndex(nums[i], i))
  }

  ghost predicate SortedByValue(xs: seq<ValueIndex>)
  {
    forall p, q :: 0 <= p < q < |xs| ==> xs[p].value <= xs[q].value
  }

  /** Sorted by value, and equal values by original position. */
  ghost predicate SortedByKey(xs: seq<ValueIndex>)
  {
    forall p, q :: 0 <= p < q < |xs| ==>
      xs[p].value < xs[q].value || (xs[p].value == xs[q].value && xs[p].index < xs[q].index)
  }

  /** Inserts x after every element whose value is not larger. */
  function Insert(x: ValueIndex, xs: seq<ValueIndex>): (r: seq<ValueIndex>)
    ensures multiset(r) == multiset(xs) + multiset{x}
  {
    if xs == [] then [x]
    else if x.value < xs[0].value then [x] + xs
    else
      assert xs == [xs[0]] + xs[1..];
      [xs[0]] + Insert(x, xs[1..])
  }

  /** Inserting into a sorted list keeps it sorted. */
  lemma {:induction false} InsertSorted(x: ValueIndex, xs: seq<ValueIndex>)
    requires SortedByValue(xs)
    ensures SortedByValue(Insert(x, xs))
  {
    if xs != [] && x.value >= xs[0].value {
      InsertSorted(x, xs[1..]);
      var rest := Insert(x, xs[1..]);
      forall k | 0 <= k < |rest|
        ensures xs[0].value <= rest[k].value
      {
        assert rest[k] in multiset(xs[1..]) + multiset{x};
      }
    }
  }

  /** Inserting an element with a later position than all others keeps the
      order by (value, position). */
  lemma {:induction false} InsertStable(x: ValueIndex, xs: seq<ValueIndex>)
    requires SortedByKey(xs)
    requires forall k :: 0 <= k < |xs| ==> xs[k].index < x.index
    ensures SortedByKey(Insert(x, xs))
  {
    if xs != [] && x.value >= xs[0].value {
      InsertStable(x, xs[1..]);
      var rest := Insert(x, xs[1..]);
      forall k | 0 <= k < |rest|
        ensures xs[0].value < rest[k].value || (xs[0].value == rest[k].value && xs[0].index < rest[k].index)
      {
        assert rest[k] in multiset(xs[1..]) + multiset{x};
      }
    }
  }

  /** Sorts by value, keeping equal values in their original order. */
  function SortByValue(xs: seq<ValueIndex>): (r: seq<ValueIndex>)
    ensures multiset(r) == multiset(xs) && |r| == |xs|
    ensures SortedByValue(r)
  {
    if xs == [] then []
    else
      assert xs == xs[..|xs| - 1] + [xs[|xs| - 1]];
      InsertSorted(xs[|xs| - 1], SortByValue(xs[..|xs| - 1]));
      var r := Insert(xs[|xs| - 1], SortByValue(xs[..|xs| - 1]));
      assert |multiset(r)| == |multiset(xs)|;
      r
  }

  /** Sorting elements listed by increasing position keeps equal values in
      that order: the sort is stable. */
  lemma {:induction false} SortByValueStable(xs: seq<ValueIndex>)
    requires forall p, q :: 0 <= p < q < |xs| ==> xs[p].index < xs[q].index
    ensures SortedByKey(SortByValue(xs))
  {
    if xs != [] {
      var init := xs[..|xs| - 1];
      SortByValueStable(init);
      var sorted := SortByValue(init);
      forall k | 0 <= k < |sorted|
        ensures sorted[k].index < xs[|xs| - 1].index
      {
        assert sorted[k] in multiset(init);
      }
      InsertStable(xs[|xs| - 1], sorted);
    }
  }

  /**
    s lists each pair (nums[i], i) once: its entries carry positions of nums
    and their values, no position appears twice, and every position appears.
  */
  ghost predicate Indexes(s: seq<ValueIndex>, nums: seq<int>)
  {
    |s| == |nums| &&
    (forall p :: 0 <= p < |s| ==> 0 <= s[p].index < |nums| && s[p].value == nums[s[p].index]) &&
    (forall p, q :: 0 <= p < |s| && 0 <= q < |s| && s[p].index == s[q].index ==> p == q) &&
    (forall i :: 0 <= i < |nums| ==> ValueIndex(nums[i], i) in s)
  }

  /** Sorting the indexed values gives a sorted list of each (nums[i], i) once. */
  lemma SortedIndexes(nums: seq<int>)
    ensures SortedByValue(SortByValue(Indexed(nums)))
    ensures Indexes(SortByValue(Indexed(nums)), nums)
  {
    var xs := Indexed(nums);
    var s := SortByValue(xs);
    SortByValueStable(xs);
    SortedEntries(nums, s);
  }

  /** Any rearrangement of the indexed values holds positions of nums and
      their values, and holds every position. */
  lemma SortedEntries(nums: seq<int>, s: seq<ValueIndex>)
    requires multiset(s) == multiset(Indexed(nums))
    ensures forall p :: 0 <= p < |s| ==> 0 <= s[p].index < |nums| && s[p].value == nums[s[p].index]
    ensures forall i :: 0 <= i < |nums| ==> ValueIndex(nums[i], i) in s
  {
    var xs := Indexed(nums);
    forall p | 0 <= p < |s|
      ensures 0 <= s[p].index < |nums| && s[p].value == nums[s[p].index]
    {
      assert s[p] in multiset(xs);
    }
    forall i | 0 <= i < |nums|
      ensures ValueIndex(nums[i], i) in s
    {
      assert xs[i] in multiset(s);
    }
  }

  /** Two positions of nums sit at two distinct positions of s, the smaller first. */
  lemma PairPositions(s: seq<ValueIndex>, nums: seq<int>, i: int, j: int)
    requires Indexes(s, nums) && 0 <= i < j < |nums|
    ensures exists p, q :: 0 <= p < q < |s| && s[p].value + s[q].value == nums[i] + nums[j]
  {
    var p :| 0 <= p < |s| && s[p] == ValueIndex(nums[i], i);
    var q :| 0 <= q < |s| && s[q] == ValueIndex(nums[j], j);
    if p < q {
      assert s[p].value + s[q].value == nums[i] + nums[j];
    } else {
      assert s[q].value + s[p].value == nums[i] + nums[j];
    }
  }
}
