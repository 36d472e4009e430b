/**
  The Python Two Sum variants. A Python list of ints is a seq<int> passed by
  value, so none of the variants can change the caller's list: the two
  pointer variant sorts its own list of (value, index) tuples.
*/
module TwoSumPy {
  import opened PairSum
  import opened ValueIndexSort

  /** two_sum_brute_force: every pair in lexicographic order, first match wins. */
  method BruteForce(nums: seq<int>, target: int) returns (r: seq<int>)
    ensures IsFirstResult(nums, target, r)
  {
    var n := |nums|;
    for i := 0 to n
      invariant forall i', j' :: IsPair(nums, target, i', j') ==> i <= i'
    {
      for j := i + 1 to n
        invariant forall i', j' :: IsPair(nums, target, i', j') ==> i < i' || (i == i' && j <= j')
      {
        if nums[i] + nums[j] == target {
          return [i, j];
        }
      }
    }
    return [];
  }

  /** seen maps every value of nums[..i] to the latest position holding it. */
  ghost predicate SeenLatest(nums: seq<int>, i: int, seen: map<int, int>)
  {
    0 <= i <= |nums| &&
    (forall v :: v in seen <==> exists k :: 0 <= k < i && nums[k] == v) &&
    (forall v :: v in seen ==> 0 <= seen[v] < i && nums[seen[v]] == v && LatestBefore(nums, seen[v], i))
  }

  /**
    two_sum_hash_table: one pass; each position first looks its complement up
    among the earlier values, then records itself, overwriting an earlier
    position of the same value.
  */
  method HashTable(nums: seq<int>, target: int) returns (r: seq<int>)
    ensures IsSomeResult(nums, target, r)
    ensures r != [] ==> FirstCompleting(nums, target, r[1]) && LatestBefore(nums, r[0], r[1])
  {
    var seen: map<int, int> := map[];
    for i := 0 to |nums|
      invariant SeenLatest(nums, i, seen)
      invariant forall j :: 0 <= j < i ==> !Completes(nums, target, j)
    {
      var num := nums[i];
      var complement := target - num;
      if complement in seen {
        assert IsPair(nums, target, seen[complement], i);
        return [seen[complement], i];
      }
      seen := seen[num := i];
    }
    HasPairCompletes(nums, target);
    return [];
  }

  /**
    two_sum_two_pointers: sort the (value, index) tuples by value and close
    in from both ends. Every pair of sorted positions whose values sum to
    target stays inside [left, right].
  */
  method TwoPointers(nums: seq<int>, target: int) returns (r: seq<int>)
    ensures IsSomeResult(nums, target, r)
  {
    var indexedNums := Indexed(nums);
    indexedNums := SortByValue(indexedNums);
    SortedIndexes(nums);
    var left, right := 0, |indexedNums| - 1;
    while left < right
      invariant 0 <= left && right < |indexedNums| && left <= right + 1
      invariant forall p, q :: 0 <= p < q < |indexedNums| && indexedNums[p].value + indexedNums[q].value == target ==>
        left <= p && q <= right
      decreases right - left
    {
      var currentSum := indexedNums[left].value + indexedNums[right].value;
      if currentSum == target {
        var a, b := indexedNums[left].index, indexedNums[right].index;
        return if a < b then [a, b] else [b, a];
      } else if currentSum < target {
        left := left + 1;
      } else {
        right := right - 1;
      }
    }
    forall i, j | IsPair(nums, target, i, j)
      ensures exists p, q :: 0 <= p < q < |indexedNums| && indexedNums[p].value + indexedNums[q].value == target
    {
      PairPositions(indexedNums, nums, i, j);
    }
    return [];
  }

  /** The generator of two_sum_pythonic, resumed at (i, j): the first pair it
      yields from there, or [] once it is exhausted. */
  function Generated(nums: seq<int>, target: int, i: nat, j: nat): seq<int>
    decreases |nums| - i, |nums| - j
  {
    if i >= |nums| then []
    else if j >= |nums| then Generated(nums, target, i + 1, i + 2)
    else if nums[i] + nums[j] == target then [i, j]
    else Generated(nums, target, i, j + 1)
  }

  /** Resumed after every pair that precedes (i, j), the generator yields the
      lexicographically first pair. */
  lemma {:induction false} GeneratedFirst(nums: seq<int>, target: int, i: nat, j: nat)
    requires i < j
    requires forall i', j' :: IsPair(nums, target, i', j') ==> i < i' || (i == i' && j <= j')
    ensures IsFirstResult(nums, target, Generated(nums, target, i, j))
    decreases |nums| - i, |nums| - j
  {
    if i >= |nums| {
    } else if j >= |nums| {
      GeneratedFirst(nums, target, i + 1, i + 2);
    } else if nums[i] + nums[j] == target {
    } else {
      GeneratedFirst(nums, target, i, j + 1);
    }
  }

  /** two_sum_pythonic: next over the generator, defaulting to []. */
  function Pythonic(nums: seq<int>, target: int): (r: seq<int>)
    ensures IsFirstResult(nums, target, r)
  {
    GeneratedFirst(nums, target, 0, 1);
    Generated(nums, target, 0, 1)
  }

  /** two_sum_pythonic and two_sum_brute_force agree: any answer the nested
      loops may give is the generator's. */
  lemma PythonicIsBruteForce(nums: seq<int>, target: int, r: seq<int>)
    requires IsFirstResult(nums, target, r)
    ensures Pythonic(nums, target) == r
  {
    FirstResultUnique(nums, target, r, Pythonic(nums, target));
  }

  /** The examples the Python file runs. */
  lemma Examples()
    ensures Pythonic([2, 7, 11, 15], 9) == [0, 1]
    ensures Pythonic([3, 2, 4], 6) == [1, 2]
    ensures Pythonic([3, 3], 6) == [0, 1]
    ensures Pythonic([], 5) == []
  {
    assert Generated([3, 2, 4], 6, 0, 1) == Generated([3, 2, 4], 6, 1, 2);
  }
}
