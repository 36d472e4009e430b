/**
  The C Two Sum variants. Each C function mallocs a two-int result and sets
  *returnSize to 2; when no pair exists it returns that buffer without ever
  writing it. Here the result is an Option: Some((first, second)) for the
  two indices written, None for the buffer left unwritten. C int arithmetic
  that could overflow is excluded by preconditions (IsInt).
*/
module TwoSumC {
  import opened Options
  import opened PairSum
  import opened ValueIndexSort
  import opened LinearProbing

  /** twoSum_BruteForce: every pair in lexicographic order, first match wins. */
  method BruteForce(nums: array<int>, numsSize: int, target: int) returns (result: Option<(int, int)>, returnSize: int)
    requires 0 <= numsSize <= nums.Length
    requires forall i, j :: 0 <= i < j < numsSize ==> IsInt(nums[i] + nums[j])
    ensures returnSize == 2
    ensures result.None? <==> !HasPair(nums[..numsSize], target)
    ensures result.Some? ==> LexFirst(nums[..numsSize], target, result.value.0, result.value.1)
  {
    returnSize := 2;
    ghost var ns := nums[..numsSize];
    var i := 0;
    while i < numsSize - 1
      invariant 0 <= i && (i <= numsSize - 1 || i == 0)
      invariant forall i', j' :: IsPair(ns, target, i', j') ==> i <= i'
    {
      for j := i + 1 to numsSize
        invariant forall i', j' :: IsPair(ns, target, i', j') ==> i < i' || (i == i' && j <= j')
      {
        if nums[i] + nums[j] == target {
          assert IsPair(ns, target, i, j);
          return Some((i, j)), returnSize;
        }
      }
      i := i + 1;
    }
    return None, returnSize;
  }

  /** compare: the sign of the value difference orders ValueIndex entries by value. */
  function Compare(a: ValueIndex, b: ValueIndex): (c: int)
    requires IsInt(a.value - b.value)
    ensures c < 0 <==> a.value < b.value
    ensures c == 0 <==> a.value == b.value
  {
    a.value - b.value
  }

  /**
    qsort(arr, n, sizeof(ValueIndex), compare) reorders arr in place so that
    compare never finds an entry larger than the next. compare must not
    overflow on any two entries.
  */
  method QSort(arr: array<ValueIndex>)
    requires forall p, q :: 0 <= p < arr.Length && 0 <= q < arr.Length ==> IsInt(arr[p].value - arr[q].value)
    modifies arr
    ensures arr[..] == SortByValue(old(arr[..]))
  {
    var sorted := SortByValue(arr[..]);
    assert |sorted| == arr.Length;
    for k := 0 to arr.Length
      invariant arr[..k] == sorted[..k]
    {
      arr[k] := sorted[k];
    }
    assert arr[..] == arr[..arr.Length];
  }

  /** Position p holds the target value under an index other than excludeIndex. */
  ghost predicate Candidate(s: seq<ValueIndex>, target: int, excludeIndex: int, p: int)
  {
    0 <= p < |s| && s[p].value == target && s[p].index != excludeIndex
  }

  /** Some position after p, up to hi, holds the target value under excludeIndex. */
  ghost predicate ExcludedAfter(s: seq<ValueIndex>, target: int, excludeIndex: int, p: int, hi: int)
  {
    exists q :: p < q <= hi && 0 <= q < |s| && s[q].value == target && s[q].index == excludeIndex
  }

  /**
    binarySearch over arr[left..right], sorted by value: an entry equal to
    target under the excluded index sends the search right. It finds every
    candidate that no excluded entry of equal value follows.
  */
  method BinarySearch(arr: array<ValueIndex>, left: int, right: int, target: int, excludeIndex: int) returns (r: int)
    requires 0 <= left && right < arr.Length
    requires SortedByValue(arr[..])
    requires forall p :: left <= p <= right ==> arr[p].index != -1
    ensures r != -1 ==> exists p :: left <= p <= right && Candidate(arr[..], target, excludeIndex, p) && arr[p].index == r
    ensures r == -1 ==> forall p :: left <= p <= right && Candidate(arr[..], target, excludeIndex, p) ==>
      ExcludedAfter(arr[..], target, excludeIndex, p, right)
  {
    var lo, hi := left, right;
    while lo <= hi
      invariant left <= lo && hi <= right
      invariant forall p ::
        (left <= p <= right && Candidate(arr[..], target, excludeIndex, p) &&
         !ExcludedAfter(arr[..], target, excludeIndex, p, right)) ==> lo <= p <= hi
      decreases hi - lo
    {
      var mid := lo + (hi - lo) / 2;
      if arr[mid].value == target && arr[mid].index != excludeIndex {
        return arr[mid].index;
      }
      if arr[mid].value < target || (arr[mid].value == target && arr[mid].index == excludeIndex) {
        assert forall p :: left <= p < mid && arr[mid].value == target ==>
          ExcludedAfter(arr[..], target, excludeIndex, p, right);
        lo := mid + 1;
      } else {
        hi := mid - 1;
      }
    }
    return -1;
  }

  /** Every entry before position i has its complement, under another index, only before it. */
  ghost predicate PartnersBefore(s: seq<ValueIndex>, target: int, i: int)
  {
    forall a, p :: 0 <= a < i && a < |s| && 0 <= p < |s| && p != a && s[a].value + s[p].value == target ==> p < a
  }

  /** Once every entry has its partners only before it, there is no pair. */
  lemma NoPartnerNoPair(s: seq<ValueIndex>, nums: seq<int>, target: int)
    requires Indexes(s, nums) && PartnersBefore(s, target, |s|)
    ensures !HasPair(nums, target)
  {
    forall x, y | IsPair(nums, target, x, y)
      ensures exists p, q :: 0 <= p < q < |s| && s[p].value + s[q].value == target
    {
      PairPositions(s, nums, x, y);
    }
  }

  /** The first part of twoSum_Optimized: the pairs (nums[i], i), sorted by qsort. */
  method SortedValueIndex(nums: array<int>, numsSize: int) returns (valueIndexArr: array<ValueIndex>)
    requires 0 <= numsSize <= nums.Length
    requires forall p, q :: 0 <= p < numsSize && 0 <= q < numsSize ==> IsInt(nums[p] - nums[q])
    ensures fresh(valueIndexArr)
    ensures valueIndexArr[..] == SortByValue(Indexed(nums[..numsSize]))
  {
    valueIndexArr := new ValueIndex[numsSize];
    for i := 0 to numsSize
      invariant valueIndexArr[..i] == Indexed(nums[..numsSize])[..i]
    {
      valueIndexArr[i] := ValueIndex(nums[i], i);
    }
    assert valueIndexArr[..] == Indexed(nums[..numsSize]);
    QSort(valueIndexArr);
  }

  /**
    One pass of the search loop of twoSum_Optimized: binary-search the
    complement of entry i under any other index. A hit is a partner of
    entry i; a miss means every partner of entry i lies before it.
  */
  method SearchComplement(valueIndexArr: array<ValueIndex>, ghost nums: seq<int>, target: int, i: int)
    returns (complementIndex: int)
    requires Indexes(valueIndexArr[..], nums) && SortedByValue(valueIndexArr[..])
    requires 0 <= i < valueIndexArr.Length && IsInt(target - valueIndexArr[i].value)
    ensures complementIndex != -1 ==>
      0 <= complementIndex < |nums| && complementIndex != valueIndexArr[i].index &&
      nums[valueIndexArr[i].index] + nums[complementIndex] == target
    ensures complementIndex == -1 ==>
      forall p :: 0 <= p < valueIndexArr.Length && p != i && valueIndexArr[i].value + valueIndexArr[p].value == target ==> p < i
  {
    var complement := target - valueIndexArr[i].value;
    complementIndex := BinarySearch(valueIndexArr, 0, valueIndexArr.Length - 1, complement, valueIndexArr[i].index);
    ghost var s := valueIndexArr[..];
    if complementIndex == -1 {
      forall p | 0 <= p < |s| && p != i && s[i].value + s[p].value == target
        ensures p < i
      {
        assert Candidate(s, complement, s[i].index, p);
      }
    }
  }

  /**
    The search loop of twoSum_Optimized over the sorted pairs: the first
    entry whose complement the binary search finds gives the two indices,
    smaller first.
  */
  method SearchPairs(valueIndexArr: array<ValueIndex>, ghost nums: seq<int>, target: int)
    returns (result: Option<(int, int)>)
    requires Indexes(valueIndexArr[..], nums) && SortedByValue(valueIndexArr[..])
    requires forall p :: 0 <= p < |nums| ==> IsInt(target - nums[p])
    ensures result.None? <==> !HasPair(nums, target)
    ensures result.Some? ==> IsPair(nums, target, result.value.0, result.value.1)
  {
    ghost var s := valueIndexArr[..];
    for i := 0 to valueIndexArr.Length
      invariant PartnersBefore(s, target, i)
    {
      var complementIndex := SearchComplement(valueIndexArr, nums, target, i);
      if complementIndex != -1 {
        if valueIndexArr[i].index < complementIndex {
          assert IsPair(nums, target, valueIndexArr[i].index, complementIndex);
          return Some((valueIndexArr[i].index, complementIndex));
        } else {
          assert IsPair(nums, target, complementIndex, valueIndexArr[i].index);
          return Some((complementIndex, valueIndexArr[i].index));
        }
      }
    }
    NoPartnerNoPair(s, nums, target);
    return None;
  }

  /**
    twoSum_Optimized: pair every value with its index, sort by value, and
    binary-search each entry's complement under any other index.
  */
  method Optimized(nums: array<int>, numsSize: int, target: int) returns (result: Option<(int, int)>, returnSize: int)
    requires 0 <= numsSize <= nums.Length
    requires forall p, q :: 0 <= p < numsSize && 0 <= q < numsSize ==> IsInt(nums[p] - nums[q])
    requires forall p :: 0 <= p < numsSize ==> IsInt(target - nums[p])
    ensures returnSize == 2
    ensures result.None? <==> !HasPair(nums[..numsSize], target)
    ensures result.Some? ==> IsPair(nums[..numsSize], target, result.value.0, result.value.1)
  {
    var valueIndexArr := SortedValueIndex(nums, numsSize);
    SortedIndexes(nums[..numsSize]);
    returnSize := 2;
    result := SearchPairs(valueIndexArr, nums[..numsSize], target);
  }

  /**
    One pass of the loop of twoSum_HashTable at position i, on a table
    holding the earlier positions: look the complement up; on a miss, insert
    nums[i] with value i. A hit is the first earlier position holding the
    complement; a miss means no earlier position pairs with i.
  */
  method Visit(hashTable: array<HashEntry>, ghost nums: seq<int>, ghost slots: seq<int>, num: int, i: int, target: int)
    returns (complementIndex: int, ghost slots': seq<int>)
    requires Holds(hashTable[..], nums, i, slots) && i < |nums| && i < HASH_SIZE && num == nums[i]
    requires IsInt(num) && num != INT_MIN && IsInt(target - num) && target - num != INT_MIN
    modifies hashTable
    ensures complementIndex != -1 ==>
      IsPair(nums, target, complementIndex, i) && FirstOccurrence(nums, complementIndex)
    ensures complementIndex == -1 ==>
      !Completes(nums, target, i) && Holds(hashTable[..], nums, i + 1, slots')
  {
    var complement := target - num;
    slots' := slots;
    FreeSlot(hashTable[..], nums, i, slots);
    complementIndex := HashSearch(hashTable, complement);
    ghost var free :| 0 <= free < HASH_SIZE && hashTable[free].present == 0;
    FindFirst(hashTable[..], nums, i, slots, complement, free, 0);
    if complementIndex == -1 {
      ghost var before := hashTable[..];
      ghost var slot := HashInsert(hashTable, num, i);
      InsertHolds(before, nums, i, slots, slot);
      slots' := slots + [slot];
    }
  }

  /**
    twoSum_HashTable: one pass over a zeroed table; each position looks its
    complement up among the earlier values, then inserts itself. The table
    never fills since at most HASH_SIZE values go in.
  */
  method HashTable(nums: array<int>, numsSize: int, target: int) returns (result: Option<(int, int)>, returnSize: int)
    requires 0 <= numsSize <= nums.Length && numsSize <= HASH_SIZE
    requires forall p :: 0 <= p < numsSize ==> IsInt(nums[p]) && nums[p] != INT_MIN
    requires forall p :: 0 <= p < numsSize ==> IsInt(target - nums[p]) && target - nums[p] != INT_MIN
    ensures returnSize == 2
    ensures result.None? <==> !HasPair(nums[..numsSize], target)
    ensures result.Some? ==> IsPair(nums[..numsSize], target, result.value.0, result.value.1)
    ensures result.Some? ==> FirstCompleting(nums[..numsSize], target, result.value.1)
    ensures result.Some? ==> FirstOccurrence(nums[..numsSize], result.value.0)
  {
    ghost var ns := nums[..numsSize];
    var hashTable := new HashEntry[HASH_SIZE](_ => Vacant);
    returnSize := 2;
    ghost var slots: seq<int> := [];
    EmptyHolds(ns);
    assert hashTable[..] == seq(HASH_SIZE, _ => Vacant);
    for i := 0 to numsSize
      invariant Holds(hashTable[..], ns, i, slots)
      invariant forall j :: 0 <= j < i ==> !Completes(ns, target, j)
    {
      var complementIndex;
      complementIndex, slots := Visit(hashTable, ns, slots, nums[i], i, target);
      if complementIndex != -1 {
        return Some((complementIndex, i)), returnSize;
      }
    }
    HasPairCompletes(ns, target);
    return None, returnSize;
  }
}
