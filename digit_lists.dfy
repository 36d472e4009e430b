/**
  Numbers as singly linked lists of decimal digits, as "Add Two Numbers" uses
  them in both its Python and its C form.

  A list on the heap is tied to two ghost witnesses: the sequence of its nodes
  and the sequence of the values they hold (IsList). The arithmetic is stated on
  those value sequences:
  - Value reads digits least-significant first (the problem's order),
    ValueMSB most-significant first (the follow-up's order);
  - AddDigits is the digit sequence the carry-propagating adders emit, and
    Emitted/CarryInto describe the same digits column by column;
  - ToDigits is the shortest little-endian digit sequence of a number.
*/
module DigitLists {

  /** ListNode(val, next): the node of both the Python class and the C struct.
      No operation of the adders changes a node's value once it is built, so
      `val` is a constant; `next` is rewired by the builders and by reversal. */
  class ListNode {
    const val: int
    var next: ListNode?

    constructor (val: int, next: ListNode?)
      ensures this.val == val && this.next == next
    {
      this.val := val;
      this.next := next;
    }
  }

  /** head starts the chain nodes[0] -> nodes[1] -> ... -> null, whose values
      are digits. */
  ghost predicate IsList(head: ListNode?, nodes: seq<ListNode>, digits: seq<int>)
    reads nodes
  {
    |nodes| == |digits| &&
    (if |nodes| == 0 then head == null else head == nodes[0]) &&
    (forall k :: 0 <= k < |nodes| ==> nodes[k].val == digits[k]) &&
    (forall k {:trigger nodes[k].next} :: 0 <= k < |nodes| - 1 ==> nodes[k].next == nodes[k + 1]) &&
    (|nodes| > 0 ==> nodes[|nodes| - 1].next == null)
  }

  /** The node at position k of a walk, null once the walk has run off the end. */
  function At(nodes: seq<ListNode>, k: nat): ListNode?
  {
    if k < |nodes| then nodes[k] else null
  }

  /** The list after its first node is again a list. */
  lemma IsListTail(head: ListNode?, nodes: seq<ListNode>, digits: seq<int>)
    requires IsList(head, nodes, digits) && |nodes| > 0
    ensures IsList(nodes[0].next, nodes[1..], digits[1..])
  {
  }

  /** What a walk over a list reads at position i: the digit there and the
      link to the next position. */
  lemma ReadAt(head: ListNode?, nodes: seq<ListNode>, digits: seq<int>, i: nat)
    requires IsList(head, nodes, digits) && i < |nodes|
    ensures nodes[i].val == digits[i]
    ensures nodes[i].next == At(nodes, i + 1)
  {
  }

  /** The value under a walk's pointer, 0 once the walk is past the end. */
  function ValOrZero(p: ListNode?): int
  {
    if p != null then p.val else 0
  }

  /** The pointer after a walk's pointer, null once the walk is past the end. */
  function NextOrNull(p: ListNode?): ListNode?
    reads p
  {
    if p != null then p.next else null
  }

  /** The nodes after the first, none for an empty list. */
  function Rest(nodes: seq<ListNode>): seq<ListNode>
  {
    if |nodes| == 0 then [] else nodes[1..]
  }

  /** What a recursion on a list reads at its head. */
  lemma ReadFront(head: ListNode?, nodes: seq<ListNode>, digits: seq<Digit>)
    requires IsList(head, nodes, digits)
    ensures ValOrZero(head) == Head(digits)
    ensures IsList(NextOrNull(head), Rest(nodes), Tail(digits))
    ensures head == null <==> |digits| == 0
  {
  }

  /** Links node, which is not part of the list, in front of the list. */
  method LinkFront(node: ListNode, rest: ListNode?, ghost nodes: seq<ListNode>, ghost vals: seq<int>)
    requires IsList(rest, nodes, vals) && node !in nodes
    modifies node
    ensures IsList(node, [node] + nodes, [node.val] + vals)
  {
    node.next := rest;
  }

  /** A list has no cycle: no node occurs twice in it. */
  lemma IsListDistinct(head: ListNode?, nodes: seq<ListNode>, digits: seq<int>, i: nat, j: nat)
    requires IsList(head, nodes, digits) && i < j < |nodes|
    ensures nodes[i] != nodes[j]
    decreases |nodes| - j
  {
    if j == |nodes| - 1 {
      assert nodes[i].next == nodes[i + 1];
    } else {
      IsListDistinct(head, nodes, digits, i + 1, j + 1);
      assert nodes[i].next == nodes[i + 1] && nodes[j].next == nodes[j + 1];
    }
  }

  /** A list under construction: it starts at `first`, its nodes so far are
      chain (with values vals), and `last` is its final node, where the next
      node will be linked. */
  ghost predicate Chain(first: ListNode, chain: seq<ListNode>, vals: seq<int>, last: ListNode)
    reads chain
  {
    |chain| > 0 && chain[0] == first && last == chain[|chain| - 1] && IsList(first, chain, vals)
  }

  /** Links a new node holding `val` behind `last`, the final node of a chain,
      and returns it: the step every list builder repeats. */
  method Append(ghost first: ListNode, ghost chain: seq<ListNode>, ghost vals: seq<int>, last: ListNode, val: int)
    returns (node: ListNode)
    requires Chain(first, chain, vals, last)
    modifies last
    ensures fresh(node) && Chain(first, chain + [node], vals + [val], node)
  {
    node := new ListNode(val, null);
    last.next := node;
  }

  /** A finished chain that began with a placeholder (the dummy head): the
      list proper starts at the placeholder's successor. */
  lemma DropDummy(dummy: ListNode, chain: seq<ListNode>, d: int, vals: seq<int>, last: ListNode)
    requires Chain(dummy, chain, [d] + vals, last)
    ensures IsList(dummy.next, chain[1..], vals)
  {
    IsListTail(dummy, chain, [d] + vals);
    assert ([d] + vals)[1..] == vals;
  }

  /** A decimal digit. */
  type Digit = x: int | 0 <= x <= 9

  function Pow10(n: nat): (p: nat)
    ensures p >= 1
  {
    if n == 0 then 1 else 10 * Pow10(n - 1)
  }

  /** The number the digits spell, least-significant digit first. */
  function Value(ds: seq<int>): int
  {
    if |ds| == 0 then 0 else ds[0] + 10 * Value(ds[1..])
  }

  /** The number the digits spell, most-significant digit first. */
  function ValueMSB(ds: seq<int>): int
  {
    if |ds| == 0 then 0 else 10 * ValueMSB(ds[..|ds| - 1]) + ds[|ds| - 1]
  }

  function Reverse<T>(s: seq<T>): (r: seq<T>)
    ensures |r| == |s|
  {
    if |s| == 0 then [] else Reverse(s[1..]) + [s[0]]
  }

  /** Reverse puts the element at k at |s| - 1 - k. */
  lemma {:induction false} ReverseIndex<T>(s: seq<T>)
    ensures forall k :: 0 <= k < |s| ==> Reverse(s)[k] == s[|s| - 1 - k]
  {
    if |s| > 0 {
      ReverseIndex(s[1..]);
    }
  }

  /** Reversing twice gives the sequence back. */
  lemma ReverseReverse<T>(s: seq<T>)
    ensures Reverse(Reverse(s)) == s
  {
    ReverseIndex(s);
    ReverseIndex(Reverse(s));
  }

  /** Reversing a sequence with one more element at its end puts that
      element in front. */
  lemma ReverseSnoc<T>(s: seq<T>, x: T)
    ensures Reverse(s + [x]) == [x] + Reverse(s)
  {
    ReverseIndex(s + [x]);
    ReverseIndex(s);
  }

  /** Reversing digits gives the same sequence whether they are seen as
      digits or as integers. */
  lemma {:induction false} ReverseDigits(s: seq<Digit>)
    ensures Reverse<int>(s) == Reverse<Digit>(s)
  {
    if |s| > 0 {
      ReverseDigits(s[1..]);
    }
  }

  /** Reversing brings in no new element. */
  lemma ReverseElements<T>(s: seq<T>)
    ensures forall x :: x in Reverse(s) ==> x in s
  {
    ReverseIndex(s);
  }

  /** Digits of a number in 0 .. 10^n - 1 */
  lemma {:induction false} ValueBounds(ds: seq<Digit>)
    ensures 0 <= Value(ds) < Pow10(|ds|)
  {
    if |ds| > 0 {
      ValueBounds(ds[1..]);
    }
  }

  /** Powers of ten grow with the exponent. */
  lemma {:induction false} Pow10Monotone(i: nat, j: nat)
    requires i <= j
    ensures Pow10(i) <= Pow10(j)
    decreases j
  {
    if i < j {
      Pow10Monotone(i, j - 1);
    }
  }

  /** The digits up to k spell at most what all of them spell. */
  lemma {:induction false} ValuePrefixBound(ds: seq<Digit>, k: nat)
    requires k <= |ds|
    ensures 0 <= Value(ds[..k]) <= Value(ds)
    decreases |ds| - k
  {
    if k == |ds| {
      assert ds[..k] == ds;
      ValueBounds(ds);
    } else {
      ValuePrefixBound(ds, k + 1);
      ValuePrefixStep(ds, k);
      ValueBounds(ds[..k]);
    }
  }

  /** Reading one more digit adds it at weight 10^k, and the digits read
      stay below 10^(k + 1). */
  lemma ValuePrefixStep(ds: seq<Digit>, k: nat)
    requires k < |ds|
    ensures Value(ds[..k + 1]) == Value(ds[..k]) + ds[k] * Pow10(k)
    ensures 0 <= ds[k] * Pow10(k) && Value(ds[..k + 1]) < Pow10(k + 1)
  {
    assert ds[..k + 1] == ds[..k] + [ds[k]];
    ValueAppend(ds[..k], ds[k]);
    ValueBounds(ds[..k + 1]);
  }

  /** Appending a digit at the most-significant end adds it times 10^|ds|. */
  lemma {:induction false} ValueAppend(ds: seq<int>, d: int)
    ensures Value(ds + [d]) == Value(ds) + d * Pow10(|ds|)
  {
    if |ds| > 0 {
      assert (ds + [d])[1..] == ds[1..] + [d];
      ValueAppend(ds[1..], d);
    }
  }

  /** Read most-significant first, a list spells the number its reversal
      spells least-significant first. */
  lemma {:induction false} ValueMSBReverse(ds: seq<int>)
    ensures ValueMSB(ds) == Value(Reverse(ds))
  {
    if |ds| > 0 {
      var init, last := ds[..|ds| - 1], ds[|ds| - 1];
      ValueMSBReverse(init);
      ReverseIndex(ds);
      ReverseIndex(init);
      assert Reverse(ds) == [last] + Reverse(init);
      assert Reverse(ds)[1..] == Reverse(init);
    }
  }

  // ---------------------------------------------------------------------------
  // The adder, recursively
  // ---------------------------------------------------------------------------

  /** The digit at the front of a list, 0 once the list is exhausted. */
  function Head(ds: seq<Digit>): Digit
  {
    if |ds| == 0 then 0 else ds[0]
  }

  /** The list after its front digit, empty once the list is exhausted. */
  function Tail(ds: seq<Digit>): seq<Digit>
  {
    if |ds| == 0 then [] else ds[1..]
  }

  /** The digits the adders emit: while a digit or a carry remains, emit
      (x + y + carry) % 10 and carry (x + y + carry) / 10. */
  function AddDigits(a: seq<Digit>, b: seq<Digit>, carry: nat): seq<Digit>
    decreases |a| + |b|, carry
  {
    if |a| == 0 && |b| == 0 && carry == 0 then []
    else
      var total := Head(a) + Head(b) + carry;
      [total % 10] + AddDigits(Tail(a), Tail(b), total / 10)
  }

  /** The emitted digits spell the sum of the inputs and the carry. */
  lemma {:induction false} AddDigitsValue(a: seq<Digit>, b: seq<Digit>, carry: nat)
    ensures Value(AddDigits(a, b, carry)) == Value(a) + Value(b) + carry
    decreases |a| + |b|, carry
  {
    if !(|a| == 0 && |b| == 0 && carry == 0) {
      var total := Head(a) + Head(b) + carry;
      AddDigitsValue(Tail(a), Tail(b), total / 10);
      var r := AddDigits(a, b, carry);
      assert r[1..] == AddDigits(Tail(a), Tail(b), total / 10);
      assert Value(a) == Head(a) + 10 * Value(Tail(a));
      assert Value(b) == Head(b) + 10 * Value(Tail(b));
    }
  }

  /** Nothing is emitted exactly when both inputs are empty and there is no carry. */
  lemma AddDigitsEmpty(a: seq<Digit>, b: seq<Digit>, carry: nat)
    ensures AddDigits(a, b, carry) == [] <==> |a| == 0 && |b| == 0 && carry == 0
  {
  }

  /** The longer of two lengths. */
  function Longer(a: seq<Digit>, b: seq<Digit>): nat
  {
    if |a| >= |b| then |a| else |b|
  }

  /** The length of the sum, for every pair of lists and carry of 0 or 1. */
  lemma {:induction false} AddDigitsLength(a: seq<Digit>, b: seq<Digit>, carry: nat)
    requires carry <= 1
    ensures LengthFits(a, b, carry)
    decreases |a| + |b|, carry
  {
    if |a| == 0 && |b| == 0 {
      AddDigitsLengthNone(a, b, carry);
    } else {
      var total := Head(a) + Head(b) + carry;
      AddDigitsLength(Tail(a), Tail(b), total / 10);
      AddDigitsLengthStep(a, b, carry);
    }
  }

  /** The sum has as many digits as the longer input, and one more exactly when
      a carry is left over, that is when the sum reaches 10^max(|a|, |b|). */
  ghost predicate LengthFits(a: seq<Digit>, b: seq<Digit>, carry: nat)
  {
    |AddDigits(a, b, carry)|
      == Longer(a, b) + (if Value(a) + Value(b) + carry >= Pow10(Longer(a, b)) then 1 else 0)
  }

  /** With both lists exhausted, only a carry of 1 is written. */
  lemma AddDigitsLengthNone(a: seq<Digit>, b: seq<Digit>, carry: nat)
    requires |a| == 0 && |b| == 0 && carry <= 1
    ensures LengthFits(a, b, carry)
  {
    assert Value(a) + Value(b) + carry >= Pow10(0) <==> carry == 1;
    if carry == 1 {
      assert AddDigits(a, b, carry) == [1] + AddDigits([], [], 0);
    }
  }

  /** One column more than the rest of the lists: a carry out of the last
      column remains exactly when it did for the rest. */
  lemma AddDigitsLengthStep(a: seq<Digit>, b: seq<Digit>, carry: nat)
    requires |a| > 0 || |b| > 0
    requires LengthFits(Tail(a), Tail(b), (Head(a) + Head(b) + carry) / 10)
    ensures LengthFits(a, b, carry)
  {
    var n := Longer(a, b);
    var total := Head(a) + Head(b) + carry;
    AddDigitsStep(a, b, carry);
    assert Value(a) == Head(a) + 10 * Value(Tail(a));
    assert Value(b) == Head(b) + 10 * Value(Tail(b));
    CarryOutLength(|AddDigits(a, b, carry)|, |AddDigits(Tail(a), Tail(b), total / 10)|, n,
      Value(a) + Value(b) + carry, total % 10, Value(Tail(a)) + Value(Tail(b)) + total / 10, Pow10(n - 1));
  }

  /** A sum written as a low digit and the rest, one column longer than the
      rest, gains a column exactly when the rest does. */
  lemma CarryOutLength(len: int, restLen: int, n: int, sum: int, low: int, rest: int, p: int)
    requires len == 1 + restLen && restLen == n - 1 + (if rest >= p then 1 else 0)
    requires sum == low + 10 * rest && 0 <= low < 10
    ensures len == n + (if sum >= 10 * p then 1 else 0)
  {
  }

  // ---------------------------------------------------------------------------
  // The adder, column by column (the loops' view)
  // ---------------------------------------------------------------------------

  /** The digit in column k, 0 past the end of the list. */
  function Get(ds: seq<Digit>, k: nat): Digit
  {
    if k < |ds| then ds[k] else 0
  }

  /** The digits from column k on. */
  function Drop(ds: seq<Digit>, k: nat): seq<Digit>
  {
    if k < |ds| then ds[k..] else []
  }

  /** The carry into column k. */
  function CarryInto(a: seq<Digit>, b: seq<Digit>, k: nat): nat
  {
    if k == 0 then 0 else (Get(a, k - 1) + Get(b, k - 1) + CarryInto(a, b, k - 1)) / 10
  }

  /** The digits written for columns 0 .. k - 1. */
  function Emitted(a: seq<Digit>, b: seq<Digit>, k: nat): (r: seq<Digit>)
    ensures |r| == k
  {
    if k == 0 then []
    else Emitted(a, b, k - 1) + [(Get(a, k - 1) + Get(b, k - 1) + CarryInto(a, b, k - 1)) % 10]
  }

  /** How many columns the adders write: one per digit of the longer input, and
      one more when a carry comes out of the last of them. */
  function Columns(a: seq<Digit>, b: seq<Digit>): nat
  {
    if CarryInto(a, b, Longer(a, b)) == 0 then Longer(a, b) else Longer(a, b) + 1
  }

  /** The carry is 0 or 1, and 0 past the last column of the longer input. */
  lemma {:induction false} CarryIntoBound(a: seq<Digit>, b: seq<Digit>, k: nat)
    ensures CarryInto(a, b, k) <= 1
    ensures k > Longer(a, b) ==> CarryInto(a, b, k) == 0
  {
    if k > 0 {
      CarryIntoBound(a, b, k - 1);
    }
  }

  /** The columns written so far, followed by what the rest of the lists and
      the carry emit, are the whole sum. */
  ghost predicate SplitAt(a: seq<Digit>, b: seq<Digit>, k: nat)
  {
    Emitted(a, b, k) + AddDigits(Drop(a, k), Drop(b, k), CarryInto(a, b, k)) == AddDigits(a, b, 0)
  }

  /** Every column count up to the last splits the sum this way. */
  lemma {:induction false} EmittedThenRest(a: seq<Digit>, b: seq<Digit>, k: nat)
    requires k <= Columns(a, b)
    ensures SplitAt(a, b, k)
  {
    if k == 0 {
      EmittedNone(a, b);
    } else {
      EmittedThenRest(a, b, k - 1);
      EmittedNext(a, b, k - 1);
    }
  }

  /** Before any column is written, what the lists emit is the whole sum. */
  lemma EmittedNone(a: seq<Digit>, b: seq<Digit>)
    ensures SplitAt(a, b, 0)
  {
    assert Drop(a, 0) == a && Drop(b, 0) == b;
    assert Emitted(a, b, 0) == [];
  }

  /** Writing column j keeps the columns written followed by the rest equal
      to the whole sum. */
  lemma EmittedNext(a: seq<Digit>, b: seq<Digit>, j: nat)
    requires j < Columns(a, b)
    requires SplitAt(a, b, j)
    ensures SplitAt(a, b, j + 1)
  {
    EmittedStep(a, b, j);
    SnocThenRest(Emitted(a, b, j), (Get(a, j) + Get(b, j) + CarryInto(a, b, j)) % 10,
      AddDigits(Drop(a, j + 1), Drop(b, j + 1), CarryInto(a, b, j + 1)),
      AddDigits(Drop(a, j), Drop(b, j), CarryInto(a, b, j)), AddDigits(a, b, 0));
  }

  /** Moving one digit from the front of the rest to the end of the prefix
      keeps their concatenation. */
  lemma SnocThenRest(x: seq<Digit>, d: Digit, y: seq<Digit>, mid: seq<Digit>, whole: seq<Digit>)
    requires x + mid == whole && mid == [d] + y
    ensures (x + [d]) + y == whole
  {
    assert (x + [d]) + y == x + ([d] + y);
  }

  /** Before the last column, what remains emits column j's digit and then
      what remains after column j. */
  lemma EmittedStep(a: seq<Digit>, b: seq<Digit>, j: nat)
    requires j < Columns(a, b)
    ensures AddDigits(Drop(a, j), Drop(b, j), CarryInto(a, b, j))
      == [(Get(a, j) + Get(b, j) + CarryInto(a, b, j)) % 10] + AddDigits(Drop(a, j + 1), Drop(b, j + 1), CarryInto(a, b, j + 1))
  {
    DropStep(a, j);
    DropStep(b, j);
    AddDigitsStep(Drop(a, j), Drop(b, j), CarryInto(a, b, j));
  }

  /** Column k of a list is the front of its digits from k on. */
  lemma DropStep(ds: seq<Digit>, k: nat)
    ensures Head(Drop(ds, k)) == Get(ds, k) && Tail(Drop(ds, k)) == Drop(ds, k + 1)
  {
  }

  /** One step of the recursive adder. */
  lemma AddDigitsStep(a: seq<Digit>, b: seq<Digit>, carry: nat)
    requires |a| > 0 || |b| > 0 || carry != 0
    ensures AddDigits(a, b, carry)
      == [(Head(a) + Head(b) + carry) % 10] + AddDigits(Tail(a), Tail(b), (Head(a) + Head(b) + carry) / 10)
  {
  }

  /** The column view and the recursive adder agree: writing all the columns
      emits exactly AddDigits. */
  lemma AddDigitsColumns(a: seq<Digit>, b: seq<Digit>)
    ensures AddDigits(a, b, 0) == Emitted(a, b, Columns(a, b))
  {
    var n := Columns(a, b);
    EmittedThenRest(a, b, n);
    CarryIntoBound(a, b, n);
    assert Drop(a, n) == [] && Drop(b, n) == [] && CarryInto(a, b, n) == 0;
  }

  /** The column past the longer list writes the carry out of the last one. */
  lemma CarryColumn(a: seq<Digit>, b: seq<Digit>)
    ensures Emitted(a, b, Longer(a, b) + 1) == Emitted(a, b, Longer(a, b)) + [CarryInto(a, b, Longer(a, b))]
  {
    CarryIntoBound(a, b, Longer(a, b));
  }

  /** A walk that has used up both lists and the carry has written every column. */
  lemma ColumnsDone(a: seq<Digit>, b: seq<Digit>, k: nat)
    requires k <= Columns(a, b) && k >= |a| && k >= |b| && CarryInto(a, b, k) == 0
    ensures k == Columns(a, b) && Emitted(a, b, k) == AddDigits(a, b, 0)
  {
    AddDigitsColumns(a, b);
  }

  /** A walk that still has a digit or a carry has a column left to write. */
  lemma ColumnsLeft(a: seq<Digit>, b: seq<Digit>, k: nat)
    requires k <= Columns(a, b) && (k < |a| || k < |b| || CarryInto(a, b, k) != 0)
    ensures k < Columns(a, b)
  {
    CarryIntoBound(a, b, k);
  }

  // ---------------------------------------------------------------------------
  // Numbers to digits and back
  // ---------------------------------------------------------------------------

  /** The digits of n, least-significant first, with no most-significant zero
      (so 0 has none). */
  function ToDigits(n: nat): seq<Digit>
  {
    if n == 0 then [] else [n % 10] + ToDigits(n / 10)
  }

  /** ToDigits spells n, in digits, without a most-significant zero. */
  lemma {:induction false} ToDigitsSpec(n: nat)
    ensures Value(ToDigits(n)) == n
    ensures n > 0 ==> |ToDigits(n)| > 0 && ToDigits(n)[|ToDigits(n)| - 1] != 0
  {
    if n > 0 {
      ToDigitsSpec(n / 10);
      assert ToDigits(n)[1..] == ToDigits(n / 10);
    }
  }

  /** The other way round: digits without a most-significant zero are the
      ToDigits of the number they spell. */
  lemma {:induction false} ToDigitsValue(ds: seq<Digit>)
    requires (|ds| == 0 || ds[|ds| - 1] != 0)
    ensures Value(ds) >= 0 && ToDigits(Value(ds)) == ds
  {
    if |ds| > 0 {
      ValueBounds(ds[1..]);
      ToDigitsValue(ds[1..]);
      if |ds| > 1 {
        ValuePositive(ds[1..]);
      }
      assert ds == [ds[0]] + ds[1..];
    }
  }

  /** The most-significant digit is non-zero exactly when the digits spell at
      least 10^(n - 1), n being their count. */
  lemma LastDigit(ds: seq<Digit>)
    requires |ds| > 0
    ensures ds[|ds| - 1] != 0 <==> Value(ds) >= Pow10(|ds| - 1)
  {
    var init, last := ds[..|ds| - 1], ds[|ds| - 1];
    assert ds == init + [last];
    ValueAppend(init, last);
    ValueBounds(init);
  }

  /** Digits ending in a non-zero digit spell a positive number. */
  lemma {:induction false} ValuePositive(ds: seq<Digit>)
    requires |ds| > 0 && ds[|ds| - 1] != 0
    ensures Value(ds) > 0
  {
    ValueBounds(ds[1..]);
    if |ds| > 1 {
      ValuePositive(ds[1..]);
    }
  }
}
