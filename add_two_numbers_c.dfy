/**
  The C "Add Two Numbers" functions that differ from the Python ones: the
  recursive copy_list, the follow-up built on it, the node and list builders
  over a C array, and list_to_number in `long long`. The dummy-head adder,
  the recursive adder (addTwoNumbers_Recursive is its helper started with
  carry 0) and reverse_list are shared with the Python file and live in
  ListAdder. malloc never fails here and free is not modelled.
*/
module AddTwoNumbersC {
  import opened DigitLists
  import opened ListAdder

  /** C's `long long`: arithmetic leaving this range is undefined behaviour,
      so every intermediate value of list_to_number must stay inside it. */
  newtype i64 = x: int | -0x8000_0000_0000_0000 <= x < 0x8000_0000_0000_0000

  const LLONG_MAX: int := 0x7fff_ffff_ffff_ffff

  /** create_node: a new node holding val and linked to nothing. */
  method CreateNode(val: int) returns (node: ListNode)
    ensures fresh(node) && node.val == val && node.next == null
  {
    node := new ListNode(val, null);
  }

  /** create_list: the first size values of nums as a list, head first;
      size 0 gives NULL. A negative size still reads nums[0] and skips the
      loop, so it gives the one-node list of nums[0]. */
  method CreateList(nums: array<int>, size: int) returns (head: ListNode?, ghost nodes: seq<ListNode>)
    requires size <= nums.Length && (size < 0 ==> 0 < nums.Length)
    ensures fresh(nodes)
    ensures 0 <= size ==> IsList(head, nodes, nums[..size])
    ensures size < 0 ==> IsList(head, nodes, nums[..1])
  {
    if size == 0 {
      return null, [];
    }
    var first := CreateNode(nums[0]);
    var current := first;
    ghost var chain := [first];
    var i := 1;
    while i < size
      invariant 1 <= i <= (if size < 1 then 1 else size)
      invariant fresh(chain) && fresh(current)
      invariant Chain(first, chain, nums[..i], current)
    {
      current := Append(first, chain, nums[..i], current, nums[i]);
      chain := chain + [current];
      assert nums[..i + 1] == nums[..i] + [nums[i]];
      i := i + 1;
    }
    head, nodes := first, chain;
  }

  /** copy_list: NULL for NULL; otherwise a new node with the head's value,
      linked to the copy of the rest. */
  method CopyList(head: ListNode?, ghost nodes: seq<ListNode>, ghost digits: seq<int>)
    returns (r: ListNode?, ghost copy: seq<ListNode>)
    requires IsList(head, nodes, digits)
    ensures fresh(copy) && IsList(r, copy, digits)
    decreases |nodes|
  {
    if head == null {
      return null, [];
    }
    IsListTail(head, nodes, digits);
    var newHead := new ListNode(head.val, null);
    var rest;
    ghost var restCopy;
    rest, restCopy := CopyList(head.next, nodes[1..], digits[1..]);
    LinkFront(newHead, rest, restCopy, digits[1..]);
    assert [head.val] + digits[1..] == digits;
    r, copy := newHead, [newHead] + restCopy;
  }

  /** addTwoNumbers_NonReversed: for digits most-significant first, copy both
      lists, reverse both copies, add them with addTwoNumbers and reverse the
      sum. The inputs are left untouched: only new nodes change. */
  method NonReversed(l1: ListNode?, ghost n1: seq<ListNode>, ghost d1: seq<Digit>,
                     l2: ListNode?, ghost n2: seq<ListNode>, ghost d2: seq<Digit>)
    returns (r: ListNode?, ghost nodes: seq<ListNode>)
    requires IsList(l1, n1, d1) && IsList(l2, n2, d2)
    ensures fresh(nodes) && IsList(r, nodes, Reverse(AddDigits(Reverse(d1), Reverse(d2), 0)))
  {
    var copy1, copy2;
    ghost var c1: seq<ListNode>, c2: seq<ListNode>;
    copy1, c1 := CopyList(l1, n1, d1);
    copy2, c2 := CopyList(l2, n2, d2);
    assert forall k :: 0 <= k < |c1| ==> c1[k] !in c2;
    var rev1, rev2;
    ghost var m1: seq<ListNode>, m2: seq<ListNode>;
    rev1, m1, rev2, m2 := ReverseBoth(copy1, c1, d1, copy2, c2, d2);
    var revResult;
    ghost var sum: seq<ListNode>;
    revResult, sum := AddIterative(rev1, m1, Reverse(d1), rev2, m2, Reverse(d2));
    r := ReverseList(revResult, sum, AddDigits(Reverse(d1), Reverse(d2), 0));
    ReverseDigits(AddDigits(Reverse(d1), Reverse(d2), 0));
    nodes := Reverse(sum);
    ReverseElements(sum);
    assert forall k :: 0 <= k < |nodes| ==> nodes[k] in sum;
  }

  // ---------------------------------------------------------------------------
  // list_to_number
  // ---------------------------------------------------------------------------

  /** The multiplier and the partial results stay below 10^18 on a list of at
      most 18 digits. */
  lemma SmallPowers(k: nat)
    requires k <= 18
    ensures Pow10(k) <= 1_000_000_000_000_000_000
  {
    Pow10Monotone(k, 18);
    Pow10Eighteen();
  }

  lemma Pow10Eighteen()
    ensures Pow10(18) == 1_000_000_000_000_000_000
  {
    assert Pow10(6) == 1_000_000;
    assert Pow10(12) == 1_000_000_000_000;
  }

  /** list_to_number as written: add each value times the multiplier, then
      multiply the multiplier by 10, node after node, in `long long`. The
      multiplication after the last node stays in range only for lists of at
      most 18 nodes, which is therefore required. */
  method ListToNumber(head: ListNode?, ghost nodes: seq<ListNode>, ghost digits: seq<Digit>)
    returns (result: i64)
    requires IsList(head, nodes, digits) && |digits| <= 18
    ensures result as int == Value(digits)
  {
    result := 0;
    var multiplier: i64 := 1;
    var node := head;
    ghost var k := 0;
    while node != null
      invariant k <= |nodes| && node == At(nodes, k)
      invariant result as int == Value(digits[..k]) && multiplier as int == Pow10(k)
      decreases |nodes| - k
    {
      ReadAt(head, nodes, digits, k);
      ValuePrefixStep(digits, k);
      ValueBounds(digits[..k]);
      SmallPowers(k + 1);
      result := result + (node.val as i64) * multiplier;
      multiplier := multiplier * 10;
      node := node.next;
      k := k + 1;
    }
    assert digits[..k] == digits;
  }

  /** The discrepancy: a 19-node list (eighteen 0s, then 1) holds 10^18, which
      a `long long` holds, yet list_to_number's last step multiplies the
      multiplier up to 10^19, past LLONG_MAX. */
  lemma ListToNumberOverflows()
    ensures var ds: seq<Digit> := seq(18, _ => 0) + [1];
      |ds| == 19 && Value(ds) <= LLONG_MAX && Pow10(|ds|) > LLONG_MAX
  {
    ValueAppend(seq(18, _ => 0), 1);
    ZerosValue(18);
    Pow10Eighteen();
    assert Pow10(19) == 10 * Pow10(18);
  }

  /** A run of zeros spells 0. */
  lemma {:induction false} ZerosValue(n: nat)
    ensures Value(seq(n, _ => 0)) == 0
  {
    if n > 0 {
      assert seq(n, _ => 0)[1..] == seq(n - 1, _ => 0);
      ZerosValue(n - 1);
    }
  }

  /** list_to_number as intended: the multiplier grows only when another
      node follows, so every list of at most 19 nodes whose number fits a
      `long long` is read without leaving the range. */
  method ListToNumberInRange(head: ListNode?, ghost nodes: seq<ListNode>, ghost digits: seq<Digit>)
    returns (result: i64)
    requires IsList(head, nodes, digits) && |digits| <= 19 && Value(digits) <= LLONG_MAX
    ensures result as int == Value(digits)
  {
    result := 0;
    var multiplier: i64 := 1;
    var node := head;
    ghost var k := 0;
    while node != null
      invariant k <= |nodes| && node == At(nodes, k)
      invariant result as int == Value(digits[..k])
      invariant node != null ==> multiplier as int == Pow10(k)
      decreases |nodes| - k
    {
      ReadAt(head, nodes, digits, k);
      ValuePrefixStep(digits, k);
      ValuePrefixBound(digits, k);
      ValuePrefixBound(digits, k + 1);
      result := result + (node.val as i64) * multiplier;
      if node.next != null {
        ReadAt(head, nodes, digits, k + 1);
        SmallPowers(k + 1);
        multiplier := multiplier * 10;
      }
      node := node.next;
      k := k + 1;
    }
    assert digits[..k] == digits;
  }
}

