/**
  The longest window of pairwise-distinct elements, as a specification shared by
  the Python (characters) and C (bytes) variants of "Longest Substring Without
  Repeating Characters".

  Two decompositions of the same quantity are defined and tied to it:
  - by start position: RunFrom(s, i), the longest distinct run that begins at i,
    and LongestUnique(s), the maximum of those runs;
  - by end position: WindowStart(s, e), the leftmost start of a distinct window
    that ends just before e, which the sliding-window variants maintain, and
    LongestUpTo(s, e), the longest such window ending by e.

  The functions carry only their bounds; what they mean is stated by the lemmas
  beside them (RunFromSpec, WindowStartSpec, LongestUpToIsLongest, ...).
*/
module UniqueWindow {

  function Max(a: int, b: int): int { if a >= b then a else b }

  function Min(a: int, b: int): int { if a <= b then a else b }

  /** s[i], ..., s[j-1] are pairwise distinct (an empty range is). */
  predicate UniqueRange<T(==)>(s: seq<T>, i: int, j: int)
    requires 0 <= i && j <= |s|
  {
    forall p, q :: i <= p < q < j ==> s[p] != s[q]
  }

  /** Every distinct window s[i..j] with j <= e is at most m long. */
  ghost predicate WindowsBoundedBy<T>(s: seq<T>, e: int, m: int)
    requires e <= |s|
  {
    forall i, j :: 0 <= i <= j <= e && UniqueRange(s, i, j) ==> j - i <= m
  }

  /** A distinct window stays distinct when the next element is new to it. */
  lemma UniqueExtend<T>(s: seq<T>, i: nat, j: nat)
    requires i <= j < |s| && UniqueRange(s, i, j) && s[j] !in s[i..j]
    ensures UniqueRange(s, i, j + 1)
  {
    forall p | i <= p < j ensures s[p] != s[j] {
      assert s[p] == s[i..j][p - i];
    }
  }

  /** A window that meets an element already inside it cannot be extended. */
  lemma RunStops<T>(s: seq<T>, i: nat, e: nat)
    requires i <= e < |s| && s[e] in s[i..e]
    ensures forall j :: e < j <= |s| ==> !UniqueRange(s, i, j)
  {
    var p :| i <= p < e && s[p] == s[e];
  }

  /** Distinctness of a slice, read in the slice's own indices. */
  lemma SliceUnique<T>(s: seq<T>, i: nat, j: nat)
    requires i <= j <= |s|
    ensures UniqueRange(s[i..j], 0, j - i) <==> UniqueRange(s, i, j)
  {
    var t := s[i..j];
    assert forall p :: 0 <= p < j - i ==> t[p] == s[i + p];
    if UniqueRange(t, 0, j - i) {
      forall p, q | i <= p < q < j ensures s[p] != s[q] {
        assert t[p - i] != t[q - i];
      }
    }
  }

  // ---------------------------------------------------------------------------
  // Decomposition by start position
  // ---------------------------------------------------------------------------

  /** Extend the run s[i..i+k] one element at a time while the next element has
      not been seen in it. */
  function RunLen<T(==)>(s: seq<T>, i: nat, k: nat): (r: nat)
    requires i + k <= |s|
    ensures k <= r && i + r <= |s|
    decreases |s| - i - k
  {
    if i + k < |s| && s[i + k] !in s[i..i + k] then RunLen(s, i, k + 1) else k
  }

  lemma {:induction false} RunLenSpec<T>(s: seq<T>, i: nat, k: nat)
    requires i + k <= |s| && UniqueRange(s, i, i + k)
    ensures UniqueRange(s, i, i + RunLen(s, i, k))
    ensures i + RunLen(s, i, k) < |s| ==> s[i + RunLen(s, i, k)] in s[i..i + RunLen(s, i, k)]
    decreases |s| - i - k
  {
    if i + k < |s| && s[i + k] !in s[i..i + k] {
      UniqueExtend(s, i, i + k);
      RunLenSpec(s, i, k + 1);
    }
  }

  /** Length of the longest distinct run that starts at i. */
  function RunFrom<T(==)>(s: seq<T>, i: nat): (r: nat)
    requires i <= |s|
    ensures i + r <= |s|
  {
    RunLen(s, i, 0)
  }

  /** The windows starting at i that are distinct are exactly those no longer
      than RunFrom(s, i). */
  lemma RunFromSpec<T>(s: seq<T>, i: nat, j: nat)
    requires i <= j <= |s|
    ensures UniqueRange(s, i, j) <==> j <= i + RunFrom(s, i)
  {
    RunLenSpec(s, i, 0);
    var r := RunFrom(s, i);
    if j > i + r {
      RunStops(s, i, i + r);
    }
  }

  /** A distinct run from `start` that reaches the end of s, or meets an element
      already inside it, is the longest run from `start`. */
  lemma RunFromExact<T>(s: seq<T>, start: nat, i: nat)
    requires start <= i <= |s| && UniqueRange(s, start, i)
    requires i == |s| || s[i] in s[start..i]
    ensures RunFrom(s, start) == i - start
  {
    RunFromSpec(s, start, i);
    if i < |s| {
      RunStops(s, start, i);
      if i < start + RunFrom(s, start) {
        RunFromSpec(s, start, i + 1);
      }
    }
  }

  /** Walking the run that begins at start one position at a time: position j
      repeats an element of s[start..j] exactly when it is the first position
      past the run. */
  lemma RunScanStep<T>(s: seq<T>, start: nat, j: nat)
    requires start <= j < |s| && j <= start + RunFrom(s, start)
    ensures s[j] in s[start..j] <==> j == start + RunFrom(s, start)
  {
    RunFromSpec(s, start, j);
    RunFromSpec(s, start, j + 1);
    if s[j] in s[start..j] {
      RunStops(s, start, j);
    } else {
      UniqueExtend(s, start, j);
    }
  }

  /** The largest RunFrom(s, k) over start positions lo <= k < hi (0 if none). */
  function MaxRun<T(==)>(s: seq<T>, lo: nat, hi: nat): nat
    requires hi <= |s|
    decreases hi
  {
    if hi <= lo then 0 else Max(MaxRun(s, lo, hi - 1), RunFrom(s, hi - 1))
  }

  /** Every start in the range has a run no longer than the maximum. */
  lemma {:induction false} MaxRunBound<T>(s: seq<T>, lo: nat, hi: nat, k: nat)
    requires lo <= k < hi <= |s|
    ensures RunFrom(s, k) <= MaxRun(s, lo, hi)
    decreases hi
  {
    if k < hi - 1 {
      MaxRunBound(s, lo, hi - 1, k);
    }
  }

  /** The maximum over a range of starts is reached by one of them. */
  lemma {:induction false} MaxRunAttained<T>(s: seq<T>, lo: nat, hi: nat) returns (k: nat)
    requires lo < hi <= |s|
    ensures lo <= k < hi && RunFrom(s, k) == MaxRun(s, lo, hi)
    decreases hi
  {
    assert MaxRun(s, lo, hi) == Max(MaxRun(s, lo, hi - 1), RunFrom(s, hi - 1));
    if hi - 1 == lo || RunFrom(s, hi - 1) >= MaxRun(s, lo, hi - 1) {
      k := hi - 1;
    } else {
      k := MaxRunAttained(s, lo, hi - 1);
    }
  }

  /** Peeling the first start off a range: the form of a recursion that walks the
      start position upwards. */
  lemma {:induction false} MaxRunFirst<T>(s: seq<T>, lo: nat, hi: nat)
    requires lo < hi <= |s|
    ensures MaxRun(s, lo, hi) == Max(RunFrom(s, lo), MaxRun(s, lo + 1, hi))
    decreases hi
  {
    var last := RunFrom(s, hi - 1);
    assert MaxRun(s, lo, hi) == Max(MaxRun(s, lo, hi - 1), last);
    if hi - 1 > lo {
      MaxRunFirst(s, lo, hi - 1);
      assert MaxRun(s, lo + 1, hi) == Max(MaxRun(s, lo + 1, hi - 1), last);
    } else {
      assert MaxRun(s, lo, hi - 1) == 0 && MaxRun(s, lo + 1, hi) == 0;
    }
  }

  /** The reference quantity: the length of the longest window of s whose
      elements are pairwise distinct; 0 for the empty sequence. */
  function LongestUnique<T(==)>(s: seq<T>): nat
  {
    MaxRun(s, 0, |s|)
  }

  /** Every distinct window is at most LongestUnique(s) long. */
  lemma LongestUpperBound<T>(s: seq<T>, i: nat, j: nat)
    requires i <= j <= |s| && UniqueRange(s, i, j)
    ensures j - i <= LongestUnique(s)
  {
    if i < j {
      RunFromSpec(s, i, j);
      MaxRunBound(s, 0, |s|, i);
    }
  }

  /** Some distinct window is exactly LongestUnique(s) long. */
  lemma LongestAttained<T>(s: seq<T>) returns (w: nat)
    ensures w + LongestUnique(s) <= |s| && UniqueRange(s, w, w + LongestUnique(s))
  {
    if |s| == 0 {
      w := 0;
    } else {
      w := MaxRunAttained(s, 0, |s|);
      RunFromSpec(s, w, w + RunFrom(s, w));
    }
  }

  /** A length that bounds every distinct window and is reached by one of them
      is LongestUnique(s). */
  lemma LongestCharacterized<T>(s: seq<T>, m: int, w: nat)
    requires WindowsBoundedBy(s, |s|, m)
    requires 0 <= m && w + m <= |s| && UniqueRange(s, w, w + m)
    ensures m == LongestUnique(s)
  {
    LongestUpperBound(s, w, w + m);
    var w' := LongestAttained(s);
    assert UniqueRange(s, w', w' + LongestUnique(s));
  }

  /** The longest distinct window is the whole sequence exactly when all its
      elements are distinct. */
  lemma LongestWholeIffDistinct<T>(s: seq<T>)
    ensures LongestUnique(s) <= |s|
    ensures LongestUnique(s) == |s| <==> UniqueRange(s, 0, |s|)
  {
    var w := LongestAttained(s);
    if UniqueRange(s, 0, |s|) {
      LongestUpperBound(s, 0, |s|);
    }
  }

  // ---------------------------------------------------------------------------
  // Decomposition by end position
  // ---------------------------------------------------------------------------

  /** The last index k < e with s[k] == c, or -1 if c does not occur in s[..e]. */
  function LastBefore<T(==)>(s: seq<T>, e: nat, c: T): (k: int)
    requires e <= |s|
    ensures -1 <= k < e
    decreases e
  {
    if e == 0 then -1 else if s[e - 1] == c then e - 1 else LastBefore(s, e - 1, c)
  }

  lemma {:induction false} LastBeforeSpec<T>(s: seq<T>, e: nat, c: T)
    requires e <= |s|
    ensures LastBefore(s, e, c) >= 0 ==> s[LastBefore(s, e, c)] == c
    ensures forall p :: LastBefore(s, e, c) < p < e ==> s[p] != c
    decreases e
  {
    if e > 0 && s[e - 1] != c {
      LastBeforeSpec(s, e - 1, c);
    }
  }

  /** m maps every element to its last index before e, and leaves out the
      elements that do not occur in s[..e]. */
  ghost predicate IsLastTable<T(!new)>(s: seq<T>, e: nat, m: map<T, int>)
    requires e <= |s|
  {
    forall c :: LastBefore(s, e, c) == if c in m then m[c] else -1
  }

  /** Recording position e keeps the last-occurrence table exact. */
  lemma LastTableStep<T(!new)>(s: seq<T>, e: nat, m: map<T, int>)
    requires e < |s| && IsLastTable(s, e, m)
    ensures IsLastTable(s, e + 1, m[s[e] := e])
  {
    var m' := m[s[e] := e];
    forall c ensures LastBefore(s, e + 1, c) == if c in m' then m'[c] else -1 {
      if c != s[e] {
        assert LastBefore(s, e + 1, c) == LastBefore(s, e, c);
      }
    }
  }

  /** With a table of last indices, the sliding window's next left boundary
      is one past the last earlier s[e] when that lies inside the window. */
  lemma JumpStep<T(!new)>(s: seq<T>, e: nat, m: map<T, int>, left: nat)
    requires e < |s| && IsLastTable(s, e, m) && left == WindowStart(s, e)
    ensures WindowStart(s, e + 1) == if s[e] in m && m[s[e]] >= left then m[s[e]] + 1 else left
  {
    assert LastBefore(s, e, s[e]) == if s[e] in m then m[s[e]] else -1;
  }

  /** The leftmost start of a distinct window that ends just before e: the left
      boundary of the sliding window once s[e-1] has been added. */
  function WindowStart<T(==)>(s: seq<T>, e: nat): (l: nat)
    requires e <= |s|
    ensures l <= e
    decreases e
  {
    if e == 0 then 0 else Max(WindowStart(s, e - 1), LastBefore(s, e - 1, s[e - 1]) + 1)
  }

  /** The windows ending at e that are distinct are exactly those that start
      at WindowStart(s, e) or later. */
  lemma {:induction false} WindowStartSpec<T>(s: seq<T>, e: nat, i: nat)
    requires i <= e <= |s|
    ensures UniqueRange(s, i, e) <==> WindowStart(s, e) <= i
    decreases e
  {
    if e > 0 {
      var k := LastBefore(s, e - 1, s[e - 1]);
      LastBeforeSpec(s, e - 1, s[e - 1]);
      if i < e {
        WindowStartSpec(s, e - 1, i);
        if WindowStart(s, e) > i {
          if WindowStart(s, e - 1) > i {
            assert !UniqueRange(s, i, e - 1);
          } else {
            assert i <= k && s[k] == s[e - 1];
          }
        } else {
          assert UniqueRange(s, i, e - 1) && k < i;
          assert UniqueRange(s, i, e) by {
            forall p, q | i <= p < q < e ensures s[p] != s[q] {
              if q < e - 1 {
                assert UniqueRange(s, i, e - 1);
              }
            }
          }
        }
      }
    }
  }

  /** The left boundary of the sliding window never moves left. */
  lemma {:induction false} WindowStartMonotone<T>(s: seq<T>, e: nat, f: nat)
    requires e <= f <= |s|
    ensures WindowStart(s, e) <= WindowStart(s, f)
    decreases f
  {
    if e < f {
      WindowStartMonotone(s, e, f - 1);
      assert WindowStart(s, f) == Max(WindowStart(s, f - 1), LastBefore(s, f - 1, s[f - 1]) + 1);
    }
  }

  /** The shrinking loop of a sliding window: while s[r] repeats inside the
      window s[l..r], whose left end lies between the boundaries for r and for
      r + 1, l is strictly left of WindowStart(s, r + 1). */
  lemma ShrinkStep<T>(s: seq<T>, l: nat, r: nat)
    requires r < |s| && WindowStart(s, r) <= l <= WindowStart(s, r + 1)
    requires s[r] in s[l..r]
    ensures l < r && l < WindowStart(s, r + 1)
  {
    RunStops(s, l, r);
    WindowStartSpec(s, r + 1, l);
  }

  /** Once s[r] is new to the window s[l..r], l is WindowStart(s, r + 1). */
  lemma ShrinkDone<T>(s: seq<T>, l: nat, r: nat)
    requires r < |s| && WindowStart(s, r) <= l <= WindowStart(s, r + 1)
    requires s[r] !in s[l..r]
    ensures l == WindowStart(s, r + 1)
  {
    WindowStartSpec(s, r, l);
    UniqueExtend(s, l, r);
    WindowStartSpec(s, r + 1, l);
  }

  /** The longest distinct window that ends by e, taken end by end. */
  function LongestUpTo<T(==)>(s: seq<T>, e: nat): nat
    requires e <= |s|
  {
    if e == 0 then 0 else Max(LongestUpTo(s, e - 1), e - WindowStart(s, e))
  }

  lemma {:induction false} LongestUpToBound<T>(s: seq<T>, e: nat)
    requires e <= |s|
    ensures WindowsBoundedBy(s, e, LongestUpTo(s, e))
  {
    if e > 0 {
      LongestUpToBound(s, e - 1);
      forall i, j | 0 <= i <= j <= e && UniqueRange(s, i, j) ensures j - i <= LongestUpTo(s, e) {
        if j == e {
          WindowStartSpec(s, e, i);
        }
      }
    }
  }

  lemma {:induction false} LongestUpToAttained<T>(s: seq<T>, e: nat) returns (w: nat)
    requires e <= |s|
    ensures w + LongestUpTo(s, e) <= e && UniqueRange(s, w, w + LongestUpTo(s, e))
  {
    if e == 0 {
      w := 0;
    } else if e - WindowStart(s, e) >= LongestUpTo(s, e - 1) {
      w := WindowStart(s, e);
      WindowStartSpec(s, e, w);
    } else {
      w := LongestUpToAttained(s, e - 1);
    }
  }

  /** Taken end by end over the whole sequence, the longest window is the
      reference quantity. */
  lemma LongestUpToIsLongest<T>(s: seq<T>)
    ensures LongestUpTo(s, |s|) == LongestUnique(s)
  {
    LongestUpToBound(s, |s|);
    var w := LongestUpToAttained(s, |s|);
    LongestCharacterized(s, LongestUpTo(s, |s|), w);
  }

  // ---------------------------------------------------------------------------
  // Distinctness through set size
  // ---------------------------------------------------------------------------

  function Elems<T>(s: seq<T>): set<T>
  {
    set x | x in s
  }

  /** Appending the next element adds it to the set. */
  lemma ElemsAppend<T>(s: seq<T>, l: nat, r: nat)
    requires l <= r < |s|
    ensures Elems(s[l..r + 1]) == Elems(s[l..r]) + {s[r]}
  {
    assert s[l..r + 1] == s[l..r] + [s[r]];
  }

  /** Dropping the first element of a window whose left end lies at or right
      of WindowStart(s, r) removes it from the set. */
  lemma ElemsDropFirst<T>(s: seq<T>, l: nat, r: nat)
    requires l < r <= |s| && WindowStart(s, r) <= l
    ensures Elems(s[l + 1..r]) == Elems(s[l..r]) - {s[l]}
  {
    WindowStartSpec(s, r, l);
    var t := s[l + 1..r];
    assert s[l..r] == [s[l]] + t;
    assert s[l] !in t by {
      forall p | 0 <= p < |t| ensures t[p] != s[l] {
        assert t[p] == s[l + 1 + p];
      }
    }
    assert Elems(s[l..r]) == {s[l]} + Elems(t);
  }

  /** The set of a sequence's elements is as large as the sequence exactly when
      its elements are pairwise distinct. */
  lemma {:induction false} ElemsCard<T>(s: seq<T>)
    ensures |Elems(s)| <= |s|
    ensures |Elems(s)| == |s| <==> UniqueRange(s, 0, |s|)
  {
    if s != [] {
      var t, x := s[..|s| - 1], s[|s| - 1];
      assert s == t + [x];
      assert Elems(s) == Elems(t) + {x};
      ElemsCard(t);
      if x in t {
        assert Elems(s) == Elems(t);
        var p :| 0 <= p < |t| && t[p] == x;
        assert s[p] == s[|s| - 1];
      } else {
        assert UniqueRange(s, 0, |s|) <==> UniqueRange(t, 0, |t|);
      }
    }
  }

  /** The set collected along the run that begins at start has the run's size. */
  lemma RunElemsCard<T>(s: seq<T>, start: nat)
    requires start <= |s|
    ensures |Elems(s[start..start + RunFrom(s, start)])| == RunFrom(s, start)
  {
    var j := start + RunFrom(s, start);
    RunFromSpec(s, start, j);
    SliceUnique(s, start, j);
    ElemsCard(s[start..j]);
  }

  /** The span a strict-improvement scan keeps after the windows ending before
      e: the window ending at bestRight that first reached the current maximum. */
  ghost predicate BestSoFar<T>(s: seq<T>, e: nat, bestLeft: nat, bestRight: nat, maxLength: nat)
    requires e <= |s|
  {
    bestRight < e && bestLeft == WindowStart(s, bestRight + 1) &&
    maxLength == bestRight + 1 - bestLeft > LongestUpTo(s, bestRight)
  }

  /** A window ending at r that beat every window ending before it, and that
      nothing after it beat: it is a longest distinct window, and every
      distinct window inside s[..r] is strictly shorter. */
  lemma BestSpan<T>(s: seq<T>, r: nat)
    requires r < |s| && LongestUpTo(s, r) < r + 1 - WindowStart(s, r + 1)
    requires LongestUpTo(s, |s|) == r + 1 - WindowStart(s, r + 1)
    ensures r + 1 - WindowStart(s, r + 1) == LongestUnique(s)
    ensures UniqueRange(s, WindowStart(s, r + 1), r + 1)
    ensures forall i, j :: 0 <= i <= j <= r && UniqueRange(s, i, j) ==> j - i < r + 1 - WindowStart(s, r + 1)
  {
    LongestUpToIsLongest(s);
    WindowStartSpec(s, r + 1, WindowStart(s, r + 1));
    LongestUpToBound(s, r);
  }
}
