/**
  The two adders and the list reversal, which the Python and the C files
  spell out the same way: the dummy-head loop (`addTwoNumbers_iterative`,
  `addTwoNumbers`), the recursion on the two lists and the carry
  (`addTwoNumbers_recursive`, `addTwoNumbers_Helper`) and the in-place
  pointer reversal (`reverse_list` in both).

  The adders promise the digit sequence AddDigits emits; what that sequence
  is worth (the sum), how long it is and when it is empty are lemmas in
  DigitLists. Neither adder has a modifies clause: the inputs are left as
  they are, and every node of the result is new.
*/
module ListAdder {
  import opened DigitLists

  /** Everything the dummy-head loop knows before writing column k: p1 and p2
      stand at column k of their lists, carry is the carry into it, and the
      result so far is the dummy followed by the digits of columns 0 .. k - 1. */
  ghost predicate AdderState(l1: ListNode?, n1: seq<ListNode>, d1: seq<Digit>, p1: ListNode?,
                             l2: ListNode?, n2: seq<ListNode>, d2: seq<Digit>, p2: ListNode?,
                             k: nat, carry: nat, dummy: ListNode, chain: seq<ListNode>, current: ListNode)
    reads n1, n2, chain
  {
    IsList(l1, n1, d1) && IsList(l2, n2, d2) &&
    k <= Columns(d1, d2) && p1 == At(n1, k) && p2 == At(n2, k) && carry == CarryInto(d1, d2, k) &&
    Chain(dummy, chain, [0] + Emitted(d1, d2, k), current)
  }

  /** One pass of the loop body: read the two digits (0 for an exhausted list),
      link a node holding the column's digit, and step both lists. */
  method AddColumn(l1: ListNode?, ghost n1: seq<ListNode>, ghost d1: seq<Digit>, p1: ListNode?,
                   l2: ListNode?, ghost n2: seq<ListNode>, ghost d2: seq<Digit>, p2: ListNode?,
                   ghost k: nat, carry: nat, ghost dummy: ListNode, ghost chain: seq<ListNode>, current: ListNode)
    returns (next1: ListNode?, next2: ListNode?, carry': nat, node: ListNode)
    requires AdderState(l1, n1, d1, p1, l2, n2, d2, p2, k, carry, dummy, chain, current)
    requires p1 != null || p2 != null || carry != 0
    requires current !in n1 && current !in n2
    modifies current
    ensures fresh(node)
    ensures AdderState(l1, n1, d1, next1, l2, n2, d2, next2, k + 1, carry', dummy, chain + [node], node)
  {
    ColumnsLeft(d1, d2, k);
    if p1 != null { ReadAt(l1, n1, d1, k); }
    if p2 != null { ReadAt(l2, n2, d2, k); }
    var val1 := if p1 != null then p1.val else 0;
    var val2 := if p2 != null then p2.val else 0;
    var total := val1 + val2 + carry;
    var digit := total % 10;
    node := Append(dummy, chain, [0] + Emitted(d1, d2, k), current, digit);
    carry' := total / 10;
    next1 := if p1 != null then p1.next else null;
    next2 := if p2 != null then p2.next else null;
    assert [0] + Emitted(d1, d2, k + 1) == ([0] + Emitted(d1, d2, k)) + [digit];
  }

  /** addTwoNumbers_iterative / addTwoNumbers: a dummy head, then one new node
      per column while either list or the carry remains; the result is the
      node after the dummy (null when nothing was written). */
  method AddIterative(l1: ListNode?, ghost n1: seq<ListNode>, ghost d1: seq<Digit>,
                      l2: ListNode?, ghost n2: seq<ListNode>, ghost d2: seq<Digit>)
    returns (r: ListNode?, ghost nodes: seq<ListNode>)
    requires IsList(l1, n1, d1) && IsList(l2, n2, d2)
    ensures fresh(nodes) && IsList(r, nodes, AddDigits(d1, d2, 0))
  {
    var dummy := new ListNode(0, null);
    var current := dummy;
    ghost var chain := [dummy];
    var carry: nat := 0;
    var p1, p2 := l1, l2;
    ghost var k := 0;
    while p1 != null || p2 != null || carry != 0
      invariant fresh(chain) && fresh(current)
      invariant AdderState(l1, n1, d1, p1, l2, n2, d2, p2, k, carry, dummy, chain, current)
      decreases Columns(d1, d2) - k
    {
      var node;
      p1, p2, carry, node := AddColumn(l1, n1, d1, p1, l2, n2, d2, p2, k, carry, dummy, chain, current);
      current := node;
      chain := chain + [node];
      k := k + 1;
    }
    ColumnsDone(d1, d2, k);
    DropDummy(dummy, chain, 0, Emitted(d1, d2, k), current);
    r, nodes := dummy.next, chain[1..];
  }

  /** addTwoNumbers_recursive / addTwoNumbers_Helper: nothing is left when
      both lists are exhausted and the carry is 0; otherwise a new node holds
      this column's digit and links to the sum of the rest. */
  method AddRecursive(l1: ListNode?, ghost n1: seq<ListNode>, ghost d1: seq<Digit>,
                      l2: ListNode?, ghost n2: seq<ListNode>, ghost d2: seq<Digit>, carry: nat)
    returns (r: ListNode?, ghost nodes: seq<ListNode>)
    requires IsList(l1, n1, d1) && IsList(l2, n2, d2)
    ensures fresh(nodes) && IsList(r, nodes, AddDigits(d1, d2, carry))
    decreases |d1| + |d2|, carry
  {
    ReadFront(l1, n1, d1);
    ReadFront(l2, n2, d2);
    if l1 == null && l2 == null && carry == 0 {
      return null, [];
    }
    var total := ValOrZero(l1) + ValOrZero(l2) + carry;
    AddDigitsStep(d1, d2, carry);
    var next1, next2 := NextOrNull(l1), NextOrNull(l2);
    var node := new ListNode(total % 10, null);
    var rest;
    ghost var restNodes;
    rest, restNodes := AddRecursive(next1, Rest(n1), Tail(d1), next2, Rest(n2), Tail(d2), total / 10);
    LinkFront(node, rest, restNodes, AddDigits(Tail(d1), Tail(d2), total / 10));
    r, nodes := node, [node] + restNodes;
    assert forall k :: 0 <= k < |nodes| ==> nodes[k] == node || nodes[k] in restNodes;
  }

  // ---------------------------------------------------------------------------
  // reverse_list
  // ---------------------------------------------------------------------------

  /** The node before position j, null before the first. */
  function Before(nodes: seq<ListNode>, j: nat): ListNode?
    requires j <= |nodes|
  {
    if j == 0 then null else nodes[j - 1]
  }

  /** index knows the position of every node: no node occurs twice. */
  ghost predicate Indexed(nodes: seq<ListNode>, index: map<ListNode, nat>)
  {
    forall j :: 0 <= j < |nodes| ==> nodes[j] in index && index[nodes[j]] == j
  }

  /** The positions of the nodes of a list. */
  ghost function Positions(nodes: seq<ListNode>): map<ListNode, nat>
  {
    if |nodes| == 0 then map[] else Positions(nodes[..|nodes| - 1])[nodes[|nodes| - 1] := |nodes| - 1]
  }

  /** Since a list has no cycle, Positions gives each of its nodes its own place. */
  lemma {:induction false} PositionsIndexed(head: ListNode?, nodes: seq<ListNode>, digits: seq<int>, n: nat)
    requires IsList(head, nodes, digits) && n <= |nodes|
    ensures Indexed(nodes[..n], Positions(nodes[..n]))
  {
    if n > 0 {
      PositionsIndexed(head, nodes, digits, n - 1);
      assert nodes[..n][..n - 1] == nodes[..n - 1];
      forall j | 0 <= j < n - 1
        ensures nodes[j] != nodes[n - 1]
      {
        IsListDistinct(head, nodes, digits, j, n - 1);
      }
    }
  }

  /** Part way through the reversal: the first k nodes point backwards, the
      others still forwards; prev is the last reversed node and current the
      first one left. */
  ghost predicate Reversing(nodes: seq<ListNode>, k: nat, prev: ListNode?, current: ListNode?)
    reads nodes
  {
    k <= |nodes| && prev == Before(nodes, k) && current == At(nodes, k) &&
    forall j {:trigger nodes[j].next} :: 0 <= j < |nodes| ==>
      nodes[j].next == (if j < k then Before(nodes, j) else At(nodes, j + 1))
  }

  /** One pass of the loop body: turn current's link round, step both pointers. */
  method ReverseStep(ghost nodes: seq<ListNode>, ghost index: map<ListNode, nat>, ghost k: nat,
                     prev: ListNode?, current: ListNode)
    returns (prev': ListNode?, current': ListNode?)
    requires Indexed(nodes, index) && Reversing(nodes, k, prev, current)
    modifies current
    ensures Reversing(nodes, k + 1, prev', current')
  {
    var next_temp := current.next;
    current.next := prev;
    prev' := current;
    current' := next_temp;
  }

  /** With every link turned round, the last node starts a list of the
      nodes, and of their values, in reverse order. */
  lemma ReversedList(nodes: seq<ListNode>, digits: seq<int>, prev: ListNode?)
    requires Reversing(nodes, |nodes|, prev, null) && |digits| == |nodes|
    requires forall j :: 0 <= j < |nodes| ==> nodes[j].val == digits[j]
    ensures IsList(prev, Reverse(nodes), Reverse(digits))
  {
    ReversedValues(nodes, digits);
    ReversedLinks(nodes, prev);
  }

  /** The reversed nodes hold the reversed values. */
  lemma ReversedValues(nodes: seq<ListNode>, digits: seq<int>)
    requires |digits| == |nodes|
    requires forall j :: 0 <= j < |nodes| ==> nodes[j].val == digits[j]
    ensures forall i :: 0 <= i < |nodes| ==> Reverse(nodes)[i].val == Reverse(digits)[i]
  {
    ReverseIndex(nodes);
    ReverseIndex(digits);
  }

  /** Turned round, the links run along the reversed nodes. */
  lemma ReversedLinks(nodes: seq<ListNode>, prev: ListNode?)
    requires Reversing(nodes, |nodes|, prev, null)
    ensures |nodes| == 0 ==> prev == null
    ensures |nodes| > 0 ==> prev == Reverse(nodes)[0] && Reverse(nodes)[|nodes| - 1].next == null
    ensures forall i :: 0 <= i < |nodes| - 1 ==> Reverse(nodes)[i].next == Reverse(nodes)[i + 1]
  {
    ReverseIndex(nodes);
    var r, n := Reverse(nodes), |nodes|;
    forall i | 0 <= i < n - 1
      ensures r[i].next == r[i + 1]
    {
      assert r[i] == nodes[n - 1 - i] && r[i + 1] == nodes[n - 2 - i];
      assert nodes[n - 1 - i].next == Before(nodes, n - 1 - i);
    }
    if n > 0 {
      assert nodes[0].next == Before(nodes, 0);
    }
  }

  /** reverse_list: walk the list turning every `next` round; the last node
      visited heads the reversed list. */
  method ReverseList(head: ListNode?, ghost nodes: seq<ListNode>, ghost digits: seq<int>)
    returns (prev: ListNode?)
    requires IsList(head, nodes, digits)
    modifies nodes
    ensures IsList(prev, Reverse(nodes), Reverse(digits))
  {
    PositionsIndexed(head, nodes, digits, |nodes|);
    assert nodes[..|nodes|] == nodes;
    ghost var index := Positions(nodes);
    prev := null;
    var current := head;
    ghost var k := 0;
    while current != null
      invariant Reversing(nodes, k, prev, current)
      decreases |nodes| - k
    {
      prev, current := ReverseStep(nodes, index, k, prev, current);
      k := k + 1;
    }
    ReversedList(nodes, digits, prev);
  }

  /** The follow-up's first step, in both languages: reverse two lists that
      share no node, one after the other. */
  method ReverseBoth(l1: ListNode?, ghost n1: seq<ListNode>, ghost d1: seq<Digit>,
                     l2: ListNode?, ghost n2: seq<ListNode>, ghost d2: seq<Digit>)
    returns (rev1: ListNode?, ghost m1: seq<ListNode>, rev2: ListNode?, ghost m2: seq<ListNode>)
    requires IsList(l1, n1, d1) && IsList(l2, n2, d2)
    requires forall k :: 0 <= k < |n1| ==> n1[k] !in n2
    modifies n1, n2
    ensures IsList(rev1, m1, Reverse(d1)) && (forall k :: 0 <= k < |m1| ==> m1[k] in n1)
    ensures IsList(rev2, m2, Reverse(d2)) && (forall k :: 0 <= k < |m2| ==> m2[k] in n2)
  {
    rev1 := ReverseList(l1, n1, d1);
    m1 := Reverse(n1);
    ReverseElements(n1);
    assert forall k :: 0 <= k < |m1| ==> m1[k] in n1;
    assert forall k :: 0 <= k < |m1| ==> allocated(m1[k]) && m1[k] !in n2;
    rev2 := ReverseList(l2, n2, d2);
    m2 := Reverse(n2);
    ReverseElements(n2);
    assert forall k :: 0 <= k < |m2| ==> m2[k] in n2;
    ReverseDigits(d1);
    ReverseDigits(d2);
  }

  /** Read most-significant first, the follow-up's result spells the sum of
      the two inputs read most-significant first. */
  lemma NonReversedSum(d1: seq<Digit>, d2: seq<Digit>)
    ensures ValueMSB(Reverse(AddDigits(Reverse(d1), Reverse(d2), 0))) == ValueMSB(d1) + ValueMSB(d2)
  {
    var s := AddDigits(Reverse(d1), Reverse(d2), 0);
    AddDigitsValue(Reverse(d1), Reverse(d2), 0);
    ReverseDigits(s);
    ReverseDigits(d1);
    ReverseDigits(d2);
    ValueMSBReverse(Reverse<int>(s));
    ReverseReverse<int>(s);
    ValueMSBReverse(d1);
    ValueMSBReverse(d2);
  }
}
