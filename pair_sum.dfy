/**
  What every Two Sum variant is asked for, stated once: a pair of distinct
  positions i < j whose values add up to the target. The variants differ in
  WHICH pair they report, so the orders they pick from are named here too:
  the lexicographically smallest pair (the nested loops and the generator),
  and the pair completed earliest by its right-hand position (the hash
  tables), whose left-hand position is the latest or the first occurrence of
  the complement.
*/
module PairSum {

  /** Positions i < j of nums whose values sum to target. */
  ghost predicate IsPair(nums: seq<int>, target: int, i: int, j: int)
  {
    0 <= i < j < |nums| && nums[i] + nums[j] == target
  }

  ghost predicate HasPair(nums: seq<int>, target: int)
  {
    exists i, j :: IsPair(nums, target, i, j)
  }

  /** (i, j) is a pair and no pair comes before it in lexicographic order. */
  ghost predicate LexFirst(nums: seq<int>, target: int, i: int, j: int)
  {
    IsPair(nums, target, i, j) &&
    forall i', j' :: IsPair(nums, target, i', j') ==> i < i' || (i == i' && j <= j')
  }

  /**
    The answer of the nested-loop searches: [] when there is no pair, the
    lexicographically smallest pair otherwise.
  */
  ghost predicate IsFirstResult(nums: seq<int>, target: int, r: seq<int>)
  {
    (r == [] && !HasPair(nums, target)) ||
    (|r| == 2 && LexFirst(nums, target, r[0], r[1]))
  }

  /** The answer of the nested loops is determined by the input. */
  lemma FirstResultUnique(nums: seq<int>, target: int, r1: seq<int>, r2: seq<int>)
    requires IsFirstResult(nums, target, r1) && IsFirstResult(nums, target, r2)
    ensures r1 == r2
  {
  }

  /** Position j is the right-hand end of some pair. */
  ghost predicate Completes(nums: seq<int>, target: int, j: int)
  {
    exists k :: IsPair(nums, target, k, j)
  }

  /** j completes a pair and no earlier position does. */
  ghost predicate FirstCompleting(nums: seq<int>, target: int, j: int)
  {
    Completes(nums, target, j) && forall j' :: 0 <= j' < j ==> !Completes(nums, target, j')
  }

  /** nums[k] does not occur again strictly between k and j. */
  ghost predicate LatestBefore(nums: seq<int>, k: int, j: int)
    requires 0 <= k < |nums|
  {
    forall k' :: k < k' < j && k' < |nums| ==> nums[k'] != nums[k]
  }

  /** nums[k] does not occur before k. */
  ghost predicate FirstOccurrence(nums: seq<int>, k: int)
    requires 0 <= k < |nums|
  {
    forall k' :: 0 <= k' < k ==> nums[k'] != nums[k]
  }

  /** The answer of a pair search that reports positions ascending: [] exactly
      when there is no pair, otherwise some pair. */
  ghost predicate IsSomeResult(nums: seq<int>, target: int, r: seq<int>)
  {
    (r == [] && !HasPair(nums, target)) ||
    (|r| == 2 && IsPair(nums, target, r[0], r[1]))
  }

  /** The hash-table answers single out one pair: its right-hand end is the
      first completing position and its left-hand end is the latest (or the
      first) occurrence of the complement before it. */
  lemma CompletingPairUnique(nums: seq<int>, target: int, k1: int, k2: int, j1: int, j2: int)
    requires IsPair(nums, target, k1, j1) && FirstCompleting(nums, target, j1)
    requires IsPair(nums, target, k2, j2) && FirstCompleting(nums, target, j2)
    requires (LatestBefore(nums, k1, j1) && LatestBefore(nums, k2, j2)) ||
             (FirstOccurrence(nums, k1) && FirstOccurrence(nums, k2))
    ensures k1 == k2 && j1 == j2
  {
  }

  /** A pair exists exactly when some position completes one. */
  lemma HasPairCompletes(nums: seq<int>, target: int)
    ensures HasPair(nums, target) <==> exists j :: 0 <= j < |nums| && Completes(nums, target, j)
  {
    if HasPair(nums, target) {
      var i, j :| IsPair(nums, target, i, j);
      assert Completes(nums, target, j);
    }
  }
}
