/**
  The Python "Add Two Numbers" variants that have no C twin: the detour
  through integers, the generator, the reduce over zip_longest, the
  most-significant-first follow-up with its iterative copy, and the
  list helpers around them. The dummy-head and the recursive adder, and
  reverse_list, are shared with the C file and live in ListAdder.

  Python's `//` and `%` by 10 floor; for a positive divisor that is the
  Euclidean division Dafny's `/` and `%` perform, so they are written as is.
*/
module AddTwoNumbersPy {
  import opened DigitLists
  import opened ListAdder
  import opened Options

  // ---------------------------------------------------------------------------
  // Reading a list
  // ---------------------------------------------------------------------------

  /** list_to_int (inside addTwoNumbers_integer_conversion) and list_to_number,
      which are the same loop: add each value times 10^position. */
  method ListToNumber(head: ListNode?, ghost nodes: seq<ListNode>, ghost digits: seq<int>)
    returns (result: int)
    requires IsList(head, nodes, digits)
    ensures result == Value(digits)
  {
    result := 0;
    var multiplier := 1;
    var node := head;
    ghost var k := 0;
    while node != null
      invariant k <= |nodes| && node == At(nodes, k)
      invariant result == Value(digits[..k]) && multiplier == Pow10(k)
      decreases |nodes| - k
    {
      ReadAt(head, nodes, digits, k);
      ValueAppend(digits[..k], digits[k]);
      assert digits[..k + 1] == digits[..k] + [digits[k]];
      result := result + node.val * multiplier;
      multiplier := multiplier * 10;
      node := node.next;
      k := k + 1;
    }
    assert digits[..k] == digits;
  }

  /** list_to_array: the values of the list, in order. */
  method ListToArray(head: ListNode?, ghost nodes: seq<ListNode>, ghost digits: seq<int>)
    returns (result: seq<int>)
    requires IsList(head, nodes, digits)
    ensures result == digits
  {
    result := [];
    var node := head;
    ghost var k := 0;
    while node != null
      invariant k <= |nodes| && node == At(nodes, k) && result == digits[..k]
      decreases |nodes| - k
    {
      ReadAt(head, nodes, digits, k);
      assert digits[..k + 1] == digits[..k] + [digits[k]];
      result := result + [node.val];
      node := node.next;
      k := k + 1;
    }
    assert digits[..k] == digits;
  }

  // ---------------------------------------------------------------------------
  // Building a list
  // ---------------------------------------------------------------------------

  /** create_list: the first value becomes the head, every further one is
      linked behind the last node; no values, no list. */
  method CreateList(nums: seq<int>) returns (head: ListNode?, ghost nodes: seq<ListNode>)
    ensures fresh(nodes) && IsList(head, nodes, nums)
  {
    if |nums| == 0 {
      return null, [];
    }
    var first := new ListNode(nums[0], null);
    var current := first;
    ghost var chain := [first];
    for i := 1 to |nums|
      invariant fresh(chain) && fresh(current)
      invariant Chain(first, chain, nums[..i], current)
    {
      current := Append(first, chain, nums[..i], current, nums[i]);
      chain := chain + [current];
      assert nums[..i + 1] == nums[..i] + [nums[i]];
    }
    assert nums[..|nums|] == nums;
    head, nodes := first, chain;
  }

  /** The digits array_to_list, the generator and int_to_list(0) fall back
      to: a list is never left empty, a single 0 stands for nothing. */
  function NonEmpty(ds: seq<int>): (r: seq<int>)
    ensures |r| > 0 && Value(r) == Value(ds)
    ensures |ds| > 0 ==> r == ds
  {
    if |ds| == 0 then [0] else ds
  }

  /** array_to_list: a dummy head, one new node per value, the node after
      the dummy; an empty array gives the single node 0. */
  method ArrayToList(arr: seq<int>) returns (r: ListNode?, ghost nodes: seq<ListNode>)
    ensures fresh(nodes) && IsList(r, nodes, NonEmpty(arr))
  {
    if |arr| == 0 {
      r := new ListNode(0, null);
      return r, [r];
    }
    var dummy := new ListNode(0, null);
    var current := dummy;
    ghost var chain := [dummy];
    for i := 0 to |arr|
      invariant fresh(chain) && fresh(current)
      invariant Chain(dummy, chain, [0] + arr[..i], current)
    {
      current := Append(dummy, chain, [0] + arr[..i], current, arr[i]);
      chain := chain + [current];
      assert [0] + arr[..i + 1] == ([0] + arr[..i]) + [arr[i]];
    }
    assert arr[..|arr|] == arr;
    DropDummy(dummy, chain, 0, arr, current);
    r, nodes := dummy.next, chain[1..];
  }

  /** copy_list: a fresh list with the same values; no list, no copy. */
  method CopyList(head: ListNode?, ghost nodes: seq<ListNode>, ghost digits: seq<int>)
    returns (r: ListNode?, ghost copy: seq<ListNode>)
    requires IsList(head, nodes, digits)
    ensures fresh(copy) && IsList(r, copy, digits)
  {
    if head == null {
      return null, [];
    }
    var dummy := new ListNode(0, null);
    var current := dummy;
    ghost var chain := [dummy];
    var p := head;
    ghost var k := 0;
    while p != null
      invariant fresh(chain) && fresh(current)
      invariant k <= |nodes| && p == At(nodes, k)
      invariant Chain(dummy, chain, [0] + digits[..k], current)
      decreases |nodes| - k
    {
      ReadAt(head, nodes, digits, k);
      current := Append(dummy, chain, [0] + digits[..k], current, p.val);
      chain := chain + [current];
      assert [0] + digits[..k + 1] == ([0] + digits[..k]) + [digits[k]];
      p := p.next;
      k := k + 1;
    }
    assert digits[..k] == digits;
    DropDummy(dummy, chain, 0, digits, current);
    r, copy := dummy.next, chain[1..];
  }

  // ---------------------------------------------------------------------------
  // addTwoNumbers_integer_conversion
  // ---------------------------------------------------------------------------

  /** The digits int_to_list writes for num: a single 0 for 0, the digits
      least-significant first for a positive number, none for a negative one
      (its loop never runs and the dummy's successor is None). */
  function IntDigits(num: int): (r: seq<Digit>)
  {
    if num == 0 then [0] else if num < 0 then [] else ToDigits(num)
  }

  /** int_to_list inverts list_to_int on numbers: the list it builds for a
      non-negative num spells num, is never empty and has no
      most-significant zero unless it is the single 0. */
  lemma IntDigitsSpec(num: int)
    requires num >= 0
    ensures Value(IntDigits(num)) == num && Canonical(IntDigits(num))
  {
    ToDigitsSpec(num);
  }

  /** Digits as the problem hands them over: at least one, and no
      most-significant zero except in the number 0 itself. */
  ghost predicate Canonical(ds: seq<int>)
  {
    |ds| > 0 && (|ds| == 1 || ds[|ds| - 1] != 0)
  }

  /** list_to_int inverts int_to_list on such digits. */
  lemma IntDigitsValue(ds: seq<Digit>)
    requires Canonical(ds)
    ensures IntDigits(Value(ds)) == ds
  {
    if ds[|ds| - 1] != 0 {
      ToDigitsValue(ds);
      ValuePositive(ds);
    } else {
      assert ds == [0];
    }
  }

  /** The digits int_to_list still has to write when its loop holds n. */
  function Pending(n: int): seq<Digit>
  {
    if n > 0 then ToDigits(n) else []
  }

  /** One pass of int_to_list's loop writes n % 10 and leaves n // 10. */
  lemma PendingStep(written: seq<Digit>, n: int)
    requires n > 0
    ensures 0 <= n / 10 < n
    ensures (written + [n % 10]) + Pending(n / 10) == written + Pending(n)
  {
    assert ToDigits(n) == [n % 10] + ToDigits(n / 10);
  }

  /** Everything int_to_list's loop knows: the list so far is the dummy
      followed by the digits written, and the digits still pending for n
      complete them to the digits of num. */
  ghost predicate Converting(num: int, n: int, dummy: ListNode, chain: seq<ListNode>,
                             written: seq<Digit>, current: ListNode)
    reads chain
  {
    Chain(dummy, chain, [0] + written, current) && written + Pending(n) == IntDigits(num)
  }

  /** One pass of int_to_list's loop: link n % 10, go on with n // 10. */
  method ConvertDigit(ghost num: int, n: int, ghost dummy: ListNode, ghost chain: seq<ListNode>,
                      ghost written: seq<Digit>, current: ListNode)
    returns (n': int, node: ListNode)
    requires n > 0 && Converting(num, n, dummy, chain, written, current)
    modifies current
    ensures fresh(node) && n' < n
    ensures Converting(num, n', dummy, chain + [node], written + [n % 10], node)
  {
    var digit := n % 10;
    PendingStep(written, n);
    node := Append(dummy, chain, [0] + written, current, digit);
    assert [0] + (written + [digit]) == ([0] + written) + [digit];
    n' := n / 10;
  }

  /** int_to_list: 0 gives the single node 0; otherwise a dummy head, then
      num % 10 linked and num divided by 10 while num is positive. */
  method IntToList(num: int) returns (r: ListNode?, ghost nodes: seq<ListNode>)
    ensures fresh(nodes) && IsList(r, nodes, IntDigits(num))
  {
    if num == 0 {
      r := new ListNode(0, null);
      return r, [r];
    }
    var dummy := new ListNode(0, null);
    var current := dummy;
    ghost var chain := [dummy];
    ghost var written: seq<Digit> := [];
    var n := num;
    while n > 0
      invariant fresh(chain) && fresh(current)
      invariant Converting(num, n, dummy, chain, written, current)
      decreases n
    {
      ghost var digit := n % 10;
      n, current := ConvertDigit(num, n, dummy, chain, written, current);
      chain := chain + [current];
      written := written + [digit];
    }
    assert written == IntDigits(num);
    DropDummy(dummy, chain, 0, written, current);
    r, nodes := dummy.next, chain[1..];
  }

  /** addTwoNumbers_integer_conversion: read both lists as numbers, add, and
      write the sum back as a list. */
  method IntegerConversion(l1: ListNode?, ghost n1: seq<ListNode>, ghost d1: seq<Digit>,
                           l2: ListNode?, ghost n2: seq<ListNode>, ghost d2: seq<Digit>)
    returns (r: ListNode?, ghost nodes: seq<ListNode>)
    requires IsList(l1, n1, d1) && IsList(l2, n2, d2)
    ensures fresh(nodes) && IsList(r, nodes, IntDigits(Value(d1) + Value(d2)))
  {
    var num1 := ListToNumber(l1, n1, d1);
    var num2 := ListToNumber(l2, n2, d2);
    var total := num1 + num2;
    r, nodes := IntToList(total);
  }

  /** The sum of two such numbers, as the adders write it, is again such a
      digit sequence. */
  lemma SumCanonical(d1: seq<Digit>, d2: seq<Digit>)
    requires Canonical(d1) && Canonical(d2)
    ensures Canonical(AddDigits(d1, d2, 0))
  {
    var s := AddDigits(d1, d2, 0);
    AddDigitsEmpty(d1, d2, 0);
    var n := Longer(d1, d2);
    if |s| > 1 {
      AddDigitsValue(d1, d2, 0);
      AddDigitsLength(d1, d2, 0);
      ValueBounds(d1);
      ValueBounds(d2);
      var sum := Value(d1) + Value(d2);
      if |s| == n + 1 {
        assert sum >= Pow10(|s| - 1);
      } else {
        var longer := if |d1| == n then d1 else d2;
        LastDigit(longer);
        assert Value(longer) >= Pow10(n - 1);
        assert sum >= Pow10(|s| - 1);
      }
      LastDigit(s);
    }
  }

  /** On the inputs the problem promises, the detour through integers writes
      exactly the digits the carry-propagating adders write. */
  lemma IntegerConversionAgrees(d1: seq<Digit>, d2: seq<Digit>)
    requires Canonical(d1) && Canonical(d2)
    ensures IntDigits(Value(d1) + Value(d2)) == AddDigits(d1, d2, 0)
  {
    SumCanonical(d1, d2);
    AddDigitsValue(d1, d2, 0);
    IntDigitsValue(AddDigits(d1, d2, 0));
  }

  // ---------------------------------------------------------------------------
  // addTwoNumbers_generator
  // ---------------------------------------------------------------------------

  /** digit_generator, collected by list(): walk both lists together and yield
      (val1 + val2 + carry) % 10 while either list or the carry remains. */
  method DigitGenerator(l1: ListNode?, ghost n1: seq<ListNode>, ghost d1: seq<Digit>,
                        l2: ListNode?, ghost n2: seq<ListNode>, ghost d2: seq<Digit>)
    returns (digits: seq<int>)
    requires IsList(l1, n1, d1) && IsList(l2, n2, d2)
    ensures digits == AddDigits(d1, d2, 0)
  {
    digits := [];
    var carry := 0;
    var node1, node2 := l1, l2;
    ghost var k := 0;
    while node1 != null || node2 != null || carry != 0
      invariant k <= Columns(d1, d2) && node1 == At(n1, k) && node2 == At(n2, k)
      invariant carry == CarryInto(d1, d2, k) && digits == Emitted(d1, d2, k)
      decreases Columns(d1, d2) - k
    {
      ColumnsLeft(d1, d2, k);
      if node1 != null { ReadAt(l1, n1, d1, k); }
      if node2 != null { ReadAt(l2, n2, d2, k); }
      var val1 := if node1 != null then node1.val else 0;
      var val2 := if node2 != null then node2.val else 0;
      var total := val1 + val2 + carry;
      digits := digits + [total % 10];
      carry := total / 10;
      node1 := if node1 != null then node1.next else null;
      node2 := if node2 != null then node2.next else null;
      k := k + 1;
    }
    ColumnsDone(d1, d2, k);
  }

  /** addTwoNumbers_generator: the generated digits as a list, the single
      node 0 when there are none. */
  method Generator(l1: ListNode?, ghost n1: seq<ListNode>, ghost d1: seq<Digit>,
                   l2: ListNode?, ghost n2: seq<ListNode>, ghost d2: seq<Digit>)
    returns (r: ListNode?, ghost nodes: seq<ListNode>)
    requires IsList(l1, n1, d1) && IsList(l2, n2, d2)
    ensures fresh(nodes) && IsList(r, nodes, NonEmpty(AddDigits(d1, d2, 0)))
  {
    var digits := DigitGenerator(l1, n1, d1, l2, n2, d2);
    r, nodes := ArrayToList(digits);
  }

  // ---------------------------------------------------------------------------
  // addTwoNumbers_functional
  // ---------------------------------------------------------------------------

  /** The first element, None once the sequence is used up. */
  function First(xs: seq<int>): Option<int>
  {
    if |xs| == 0 then None else Some(xs[0])
  }

  /** The sequence after its first element, empty once it is used up. */
  function Behind(xs: seq<int>): seq<int>
  {
    if |xs| == 0 then [] else xs[1..]
  }

  /** zip_longest(a, b): pairs up the two sequences element by element, the
      shorter one padded with None. */
  function ZipLongest(a: seq<int>, b: seq<int>): (z: seq<(Option<int>, Option<int>)>)
    ensures |z| == (if |a| >= |b| then |a| else |b|)
    decreases |a| + |b|
  {
    if |a| == 0 && |b| == 0 then [] else [(First(a), First(b))] + ZipLongest(Behind(a), Behind(b))
  }

  /** The entry at i of an index-wise view: Some element, None past the end. */
  function Entry(xs: seq<int>, i: nat): Option<int>
  {
    if i < |xs| then Some(xs[i]) else None
  }

  /** Pair i of zip_longest holds the elements at i, None past the end of
      either sequence. */
  lemma {:induction false} ZipLongestIndex(a: seq<int>, b: seq<int>)
    ensures forall i :: 0 <= i < |ZipLongest(a, b)| ==> ZipLongest(a, b)[i] == (Entry(a, i), Entry(b, i))
    decreases |a| + |b|
  {
    if |a| > 0 || |b| > 0 {
      ZipLongestIndex(Behind(a), Behind(b));
      var z := ZipLongest(a, b);
      forall i | 0 < i < |z|
        ensures z[i] == (Entry(a, i), Entry(b, i))
      {
        assert z[i] == ZipLongest(Behind(a), Behind(b))[i - 1];
      }
    }
  }

  /** A missing value (None) counts as 0. */
  function OrZero(v: Option<int>): int
  {
    if v.Some? then v.value else 0
  }

  /** add_with_carry: add the pair and the carry, append the sum's last digit
      to the result and carry the rest on. */
  function AddWithCarry(acc: (int, seq<int>), pair: (Option<int>, Option<int>)): (r: (int, seq<int>))
    ensures |r.1| == |acc.1| + 1 && r.1[..|acc.1|] == acc.1
    ensures 0 <= r.1[|acc.1|] < 10 && 10 * r.0 + r.1[|acc.1|] == OrZero(pair.0) + OrZero(pair.1) + acc.0
  {
    var total := OrZero(pair.0) + OrZero(pair.1) + acc.0;
    (total / 10, acc.1 + [total % 10])
  }

  /** functools.reduce with an initial value: a left fold. */
  function Reduce<A, B>(f: (A, B) -> A, acc: A, xs: seq<B>): A
    decreases |xs|
  {
    if |xs| == 0 then acc else Reduce(f, f(acc, xs[0]), xs[1..])
  }

  /** Lines 213 to 215: reduce add_with_carry over the zipped digits starting
      from (0, []), then append a carry that is left over. */
  function AddByReduce(a: seq<int>, b: seq<int>): seq<int>
  {
    var (carry, result) := Reduce(AddWithCarry, (0, []), ZipLongest(a, b));
    if carry != 0 then result + [carry] else result
  }

  /** The fold's accumulator before column k: the carry into it and the
      digits written for the columns before it. */
  function Columned(a: seq<Digit>, b: seq<Digit>, k: nat): (int, seq<int>)
  {
    (CarryInto(a, b, k), Emitted(a, b, k))
  }

  /** From column k on, the fold carries and writes what the columns do. */
  lemma {:induction false} ReduceColumns(a: seq<Digit>, b: seq<Digit>, k: nat)
    requires k <= Longer(a, b)
    ensures Reduce(AddWithCarry, Columned(a, b, k), ZipLongest(a, b)[k..]) == Columned(a, b, Longer(a, b))
    decreases Longer(a, b) - k
  {
    ZipLongestIndex(a, b);
    var z := ZipLongest(a, b);
    if k < Longer(a, b) {
      ReduceColumns(a, b, k + 1);
      assert z[k..][0] == (Entry(a, k), Entry(b, k));
      assert z[k..][1..] == z[k + 1..];
      assert OrZero(Entry(a, k)) == Get(a, k) && OrZero(Entry(b, k)) == Get(b, k);
    } else {
      assert z[k..] == [];
    }
  }

  /** The reduce, with the leftover carry appended, writes the digits the
      other adders write. */
  lemma ReduceAdds(a: seq<Digit>, b: seq<Digit>)
    ensures AddByReduce(a, b) == AddDigits(a, b, 0)
  {
    var n := Longer(a, b);
    ReduceColumns(a, b, 0);
    assert ZipLongest(a, b)[0..] == ZipLongest(a, b);
    assert Columned(a, b, 0) == (0, []);
    AddDigitsColumns(a, b);
    if CarryInto(a, b, n) != 0 {
      CarryColumn(a, b);
    }
  }

  /** addTwoNumbers_functional: both lists to arrays, the reduce, and the
      digits back to a list (the single node 0 when there are none). */
  method Functional(l1: ListNode?, ghost n1: seq<ListNode>, ghost d1: seq<Digit>,
                    l2: ListNode?, ghost n2: seq<ListNode>, ghost d2: seq<Digit>)
    returns (r: ListNode?, ghost nodes: seq<ListNode>)
    requires IsList(l1, n1, d1) && IsList(l2, n2, d2)
    ensures fresh(nodes) && IsList(r, nodes, NonEmpty(AddDigits(d1, d2, 0)))
  {
    var arr1 := ListToArray(l1, n1, d1);
    var arr2 := ListToArray(l2, n2, d2);
    var result := AddByReduce(arr1, arr2);
    ReduceAdds(d1, d2);
    r, nodes := ArrayToList(result);
  }

  // ---------------------------------------------------------------------------
  // addTwoNumbers_non_reversed
  // ---------------------------------------------------------------------------

  /** addTwoNumbers_non_reversed: for digits most-significant first, reverse
      copies of both lists, add them with the dummy-head adder and reverse the
      sum. The inputs are left untouched: only new nodes change. */
  method NonReversed(l1: ListNode?, ghost n1: seq<ListNode>, ghost d1: seq<Digit>,
                     l2: ListNode?, ghost n2: seq<ListNode>, ghost d2: seq<Digit>)
    returns (r: ListNode?, ghost nodes: seq<ListNode>)
    requires IsList(l1, n1, d1) && IsList(l2, n2, d2)
    ensures fresh(nodes) && IsList(r, nodes, Reverse(AddDigits(Reverse(d1), Reverse(d2), 0)))
  {
    var copy1, copy2;
    ghost var c1: seq<ListNode>, c2: seq<ListNode>;
    copy1, c1 := CopyList(l1, n1, d1);
    copy2, c2 := CopyList(l2, n2, d2);
    assert forall k :: 0 <= k < |c1| ==> c1[k] !in c2;
    var rev1, rev2;
    ghost var m1: seq<ListNode>, m2: seq<ListNode>;
    rev1, m1, rev2, m2 := ReverseBoth(copy1, c1, d1, copy2, c2, d2);
    var revResult;
    ghost var sum: seq<ListNode>;
    revResult, sum := AddIterative(rev1, m1, Reverse(d1), rev2, m2, Reverse(d2));
    r := ReverseList(revResult, sum, AddDigits(Reverse(d1), Reverse(d2), 0));
    ReverseDigits(AddDigits(Reverse(d1), Reverse(d2), 0));
    nodes := Reverse(sum);
    ReverseElements(sum);
    assert forall k :: 0 <= k < |nodes| ==> nodes[k] in sum;
  }

  /** The first test case: 342 + 465 = 807, so [2,4,3] and [5,6,4] give
      [7,0,8]. */
  lemma BasicExample()
    ensures AddDigits([2, 4, 3], [5, 6, 4], 0) == [7, 0, 8]
  {
    var a: seq<Digit> := [2, 4, 3];
    var b: seq<Digit> := [5, 6, 4];
    assert AddDigits(a[2..], b[2..], 1) == [8];
    assert AddDigits(a[1..], b[1..], 0) == [0, 8];
  }

  /** The second test case: 0 + 0 = 0, a single zero digit. */
  lemma ZeroExample()
    ensures AddDigits([0], [0], 0) == [0]
  {
    var z: seq<Digit> := [0];
    assert AddDigits(z[1..], z[1..], 0) == [];
  }

  /** The third test case: 99 + 1 = 100, where the carry adds a digit. */
  lemma CarryExample()
    ensures AddDigits([9, 9], [1], 0) == [0, 0, 1]
  {
    var n: seq<Digit> := [9, 9];
    var o: seq<Digit> := [1];
    assert AddDigits(n[2..], o[1..], 1) == [1];
    assert AddDigits(n[1..], o[1..], 1) == [0, 1];
  }

  /** The follow-up's test case, digits most significant first:
      123 + 564 = 687. */
  lemma FollowUpExample()
    ensures Reverse(AddDigits(Reverse([1, 2, 3]), Reverse([5, 6, 4]), 0)) == [6, 8, 7]
  {
    var r1: seq<Digit> := [3, 2, 1];
    var r2: seq<Digit> := [4, 6, 5];
    assert Reverse([1, 2, 3]) == r1;
    assert Reverse([5, 6, 4]) == r2;
    assert AddDigits(r1[2..], r2[2..], 0) == [6];
    assert AddDigits(r1[1..], r2[1..], 0) == [8, 6];
    assert AddDigits(r1, r2, 0) == [7, 8, 6];
  }
}
