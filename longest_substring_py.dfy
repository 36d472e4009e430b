/**
  The Python variants of "Longest Substring Without Repeating Characters".
  A Python str is a sequence of characters; every variant is proved to return
  UniqueWindow.LongestUnique(s), the length of the longest window of s whose
  characters are pairwise distinct.
*/
module LongestSubstringPy {
  import opened UniqueWindow

  // ---------------------------------------------------------------------------
  // Brute force: every substring, tested through the size of its set
  // ---------------------------------------------------------------------------

  /** all_unique: a substring has no repeats when its set of characters is as
      large as the substring itself. */
  function AllUnique(sub: string): (r: bool)
    ensures r <==> UniqueRange(sub, 0, |sub|)
  {
    ElemsCard(sub);
    |Elems(sub)| == |sub|
  }

  /** All substrings s[i:j], longest distinct one kept. After start i, the
      maximum covers every window starting before i; within start i, every
      window ending before j. */
  method BruteForce(s: string) returns (maxLength: nat)
    ensures maxLength == LongestUnique(s)
  {
    var n := |s|;
    maxLength := 0;
    for i := 0 to n
      invariant maxLength == MaxRun(s, 0, i)
    {
      for j := i + 1 to n + 1
        invariant maxLength == Max(MaxRun(s, 0, i), Min(j - 1 - i, RunFrom(s, i)))
      {
        SliceUnique(s, i, j);
        RunFromSpec(s, i, j);
        if AllUnique(s[i..j]) {
          maxLength := Max(maxLength, j - i);
        }
      }
    }
  }

  // ---------------------------------------------------------------------------
  // Sliding windows: after each step the window is s[left..right], with left
  // at WindowStart(s, right + 1), and the maximum is LongestUpTo(s, right + 1)
  // ---------------------------------------------------------------------------

  /** Set-based window: shrink from the left while s[right] is in the set. */
  method SlidingWindow(s: string) returns (maxLength: nat)
    ensures maxLength == LongestUnique(s)
  {
    var charSet: set<char> := {};
    var left := 0;
    maxLength := 0;
    for right := 0 to |s|
      invariant left == WindowStart(s, right)
      invariant charSet == Elems(s[left..right])
      invariant maxLength == LongestUpTo(s, right)
    {
      WindowStartMonotone(s, right, right + 1);
      while s[right] in charSet
        invariant WindowStart(s, right) <= left <= WindowStart(s, right + 1)
        invariant charSet == Elems(s[left..right])
        decreases right - left
      {
        ShrinkStep(s, left, right);
        ElemsDropFirst(s, left, right);
        charSet := charSet - {s[left]};
        left := left + 1;
      }
      ShrinkDone(s, left, right);
      ElemsAppend(s, left, right);
      charSet := charSet + {s[right]};
      maxLength := Max(maxLength, right - left + 1);
    }
    LongestUpToIsLongest(s);
  }

  /** Dictionary-based window: left jumps past the last index of s[right] when
      that index lies inside the window; charIndex holds every character's last
      index so far. */
  method Optimized(s: string) returns (maxLength: nat)
    ensures maxLength == LongestUnique(s)
  {
    var charIndex: map<char, int> := map[];
    var left := 0;
    maxLength := 0;
    for right := 0 to |s|
      invariant left == WindowStart(s, right)
      invariant IsLastTable(s, right, charIndex)
      invariant maxLength == LongestUpTo(s, right)
    {
      var c := s[right];
      JumpStep(s, right, charIndex, left);
      if c in charIndex && charIndex[c] >= left {
        left := charIndex[c] + 1;
      }
      assert left == WindowStart(s, right + 1);
      LastTableStep(s, right, charIndex);
      charIndex := charIndex[c := right];
      maxLength := Max(maxLength, right - left + 1);
    }
    LongestUpToIsLongest(s);
  }

  /** dict.get(key, default). */
  function Get(m: map<char, int>, key: char, default: int): (r: int)
    ensures key in m ==> r == m[key]
    ensures key !in m ==> r == default
  {
    if key in m then m[key] else default
  }

  /** The same window written with max and dict.get. Its left boundary is
      WindowStart(s, right + 1) after every step, as in Optimized. */
  method Pythonic(s: string) returns (maxLength: nat)
    ensures maxLength == LongestUnique(s)
  {
    var seen: map<char, int> := map[];
    var left := 0;
    maxLength := 0;
    for right := 0 to |s|
      invariant left == WindowStart(s, right)
      invariant IsLastTable(s, right, seen)
      invariant maxLength == LongestUpTo(s, right)
    {
      var c := s[right];
      JumpStep(s, right, seen, left);
      left := Max(left, Get(seen, c, -1) + 1);
      LastTableStep(s, right, seen);
      seen := seen[c := right];
      maxLength := Max(maxLength, right - left + 1);
    }
    LongestUpToIsLongest(s);
  }

  /** The window kept as a deque of characters. */
  method Deque(s: string) returns (maxLength: nat)
    ensures maxLength == LongestUnique(s)
  {
    if |s| == 0 {
      return 0;
    }
    maxLength := 0;
    var window: seq<char> := [];
    ghost var left := 0;
    for right := 0 to |s|
      invariant left == WindowStart(s, right)
      invariant window == s[left..right]
      invariant maxLength == LongestUpTo(s, right)
    {
      var c := s[right];
      WindowStartMonotone(s, right, right + 1);
      while c in window
        invariant WindowStart(s, right) <= left <= WindowStart(s, right + 1)
        invariant window == s[left..right]
        decreases |window|
      {
        ShrinkStep(s, left, right);
        window := window[1..];
        left := left + 1;
      }
      ShrinkDone(s, left, right);
      window := window + [c];
      maxLength := Max(maxLength, |window|);
    }
    LongestUpToIsLongest(s);
  }

  // ---------------------------------------------------------------------------
  // Start-position scans: the maximum over starts of the run beginning there
  // ---------------------------------------------------------------------------

  /** expand_from_position: the characters met from start up to the first
      repeat, collected in a set; its size is the run that begins at start. */
  method ExpandFromPosition(s: string, start: nat) returns (r: nat)
    requires start <= |s|
    ensures r == RunFrom(s, start)
  {
    var seen: set<char> := {};
    for i := start to |s|
      invariant seen == Elems(s[start..i]) && i <= start + RunFrom(s, start)
    {
      RunScanStep(s, start, i);
      if s[i] in seen {
        break;
      }
      ElemsAppend(s, start, i);
      seen := seen + {s[i]};
    }
    RunElemsCard(s, start);
    return |seen|;
  }

  /** max over a generator of expand_from_position, one start at a time. */
  method Functional(s: string) returns (maxLength: nat)
    ensures maxLength == LongestUnique(s)
  {
    if |s| == 0 {
      return 0;
    }
    maxLength := ExpandFromPosition(s, 0);
    for i := 1 to |s|
      invariant maxLength == MaxRun(s, 0, i)
    {
      var r := ExpandFromPosition(s, i);
      maxLength := Max(maxLength, r);
    }
  }

  /** unique_length_from: the same run, collected in a list while walking the
      suffix s[start:]. */
  method UniqueLengthFrom(s: string, start: nat) returns (r: nat)
    requires start <= |s|
    ensures r == RunFrom(s, start)
  {
    var suffix := s[start..];
    var chars: seq<char> := [];
    for k := 0 to |suffix|
      invariant chars == s[start..start + k] && k <= RunFrom(s, start)
    {
      var ch := suffix[k];
      RunScanStep(s, start, start + k);
      if ch in chars {
        break;
      }
      chars := chars + [ch];
    }
    return |chars|;
  }

  /** Python's max over a non-empty list: the running maximum is replaced only
      by a strictly larger element. */
  function MaxOf(xs: seq<nat>): (m: nat)
    requires |xs| > 0
    ensures m in xs
    ensures forall k :: 0 <= k < |xs| ==> xs[k] <= m
  {
    if |xs| == 1 then xs[0]
    else
      var m := MaxOf(xs[..|xs| - 1]);
      if xs[|xs| - 1] > m then xs[|xs| - 1] else m
  }

  /** The maximum of the list of per-start runs is the longest distinct window. */
  lemma MaxOfRuns(s: string, lengths: seq<nat>)
    requires |lengths| == |s| > 0
    requires forall k :: 0 <= k < |s| ==> lengths[k] == RunFrom(s, k)
    ensures MaxOf(lengths) == LongestUnique(s)
  {
    var m := MaxOf(lengths);
    var k :| 0 <= k < |lengths| && lengths[k] == m;
    MaxRunBound(s, 0, |s|, k);
    var k' := MaxRunAttained(s, 0, |s|);
    assert lengths[k'] <= m;
  }

  /** max over the list built by a comprehension of unique_length_from. */
  method ListComprehension(s: string) returns (maxLength: nat)
    ensures maxLength == LongestUnique(s)
  {
    if |s| == 0 {
      return 0;
    }
    var lengths: seq<nat> := [];
    for i := 0 to |s|
      invariant |lengths| == i
      invariant forall k :: 0 <= k < i ==> lengths[k] == RunFrom(s, k)
    {
      var r := UniqueLengthFrom(s, i);
      lengths := lengths + [r];
    }
    maxLength := MaxOf(lengths);
    MaxOfRuns(s, lengths);
  }

  /** A generator yields each start's run length (set plus counter) and max
      consumes it as it goes; an empty string gives 0. */
  method Generator(s: string) returns (maxLength: nat)
    ensures maxLength == LongestUnique(s)
  {
    if |s| == 0 {
      return 0;
    }
    maxLength := 0;
    for i := 0 to |s|
      invariant i > 0 ==> maxLength == MaxRun(s, 0, i)
    {
      var seen: set<char> := {};
      var length := 0;
      for j := i to |s|
        invariant seen == Elems(s[i..j]) && length == j - i && j <= i + RunFrom(s, i)
      {
        RunScanStep(s, i, j);
        if s[j] in seen {
          break;
        }
        ElemsAppend(s, i, j);
        seen := seen + {s[j]};
        length := length + 1;
      }
      if i == 0 || length > maxLength {
        maxLength := length;
      }
    }
  }

  // ---------------------------------------------------------------------------
  // Recursion with memoization
  // ---------------------------------------------------------------------------

  /** helper of lengthOfLongestSubstring_recursive_memo: a character already
      in seen restarts the search with an empty set; a new one is either
      counted with 1 + the rest (the include branch) or skipped by a restart.
      The memo dictionary only caches these values, so it is left out. After
      an include, the rest may itself restart, and the characters counted
      before the restart are added to a run that no longer touches them. */
  function MemoHelper(s: string, start: nat, seen: set<char>): nat
    decreases |s| - start
  {
    if start >= |s| then 0
    else if s[start] in seen then MemoHelper(s, start + 1, {})
    else Max(1 + MemoHelper(s, start + 1, seen + {s[start]}), MemoHelper(s, start + 1, {}))
  }

  /** lengthOfLongestSubstring_recursive_memo as written. */
  function RecursiveMemo(s: string): nat
  {
    if |s| == 0 then 0 else MemoHelper(s, 0, {})
  }

  /** On "abbc" the include branch counts "ab", restarts at the second "b"
      and adds the run "c": 3, where the longest distinct window is 2 long. */
  lemma RecursiveMemoOvercounts()
    ensures RecursiveMemo("abbc") == 3 && LongestUnique("abbc") == 2
  {
    var s := "abbc";
    assert MemoHelper(s, 3, {}) == 1;
    assert MemoHelper(s, 2, {'a', 'b'}) == 1;
    assert MemoHelper(s, 1, {'a'}) >= 2;
    assert MemoHelper(s, 0, {}) >= 3;
    assert RunFrom(s, 0) == 2 && RunFrom(s, 1) == 1 && RunFrom(s, 2) == 2 && RunFrom(s, 3) == 1;
    MemoHelperAtMost(s, 0, {});
  }

  /** The helper never counts more characters than remain. */
  lemma {:induction false} MemoHelperAtMost(s: string, start: nat, seen: set<char>)
    requires start <= |s|
    ensures MemoHelper(s, start, seen) <= |s| - start
    decreases |s| - start
  {
    if start < |s| {
      MemoHelperAtMost(s, start + 1, {});
      MemoHelperAtMost(s, start + 1, seen + {s[start]});
    }
  }

  /** The include branch as evidently intended: the run goes on only while the
      characters are new, and ends at the first repeat. */
  function Extend(s: string, start: nat, seen: set<char>): nat
    decreases |s| - start
  {
    if start >= |s| || s[start] in seen then 0 else 1 + Extend(s, start + 1, seen + {s[start]})
  }

  /** The corrected helper: at every start, the run that begins there or the
      best of the later starts. */
  function MemoHelperCorrected(s: string, start: nat): nat
    decreases |s| - start
  {
    if start >= |s| then 0 else Max(Extend(s, start, {}), MemoHelperCorrected(s, start + 1))
  }

  /** Extending the distinct run s[i..i+k] with its set of characters gives the
      rest of the longest distinct run from i. */
  lemma {:induction false} ExtendRun(s: string, i: nat, k: nat)
    requires i + k <= |s|
    ensures k + Extend(s, i + k, Elems(s[i..i + k])) == RunLen(s, i, k)
    decreases |s| - i - k
  {
    if i + k < |s| {
      assert s[i + k] in Elems(s[i..i + k]) <==> s[i + k] in s[i..i + k];
      if s[i + k] !in s[i..i + k] {
        ElemsAppend(s, i, i + k);
        ExtendRun(s, i, k + 1);
      }
    }
  }

  /** The corrected helper from start is the longest run over the starts from
      start on. */
  lemma {:induction false} MemoHelperCorrectedRuns(s: string, start: nat)
    requires start <= |s|
    ensures MemoHelperCorrected(s, start) == MaxRun(s, start, |s|)
    decreases |s| - start
  {
    if start < |s| {
      MemoHelperCorrectedRuns(s, start + 1);
      ExtendRun(s, start, 0);
      assert Elems(s[start..start]) == {};
      MaxRunFirst(s, start, |s|);
    }
  }

  /** lengthOfLongestSubstring_recursive_memo with the include branch
      corrected: the longest distinct window. */
  function RecursiveMemoCorrected(s: string): (r: nat)
    ensures r == LongestUnique(s)
  {
    MemoHelperCorrectedRuns(s, 0);
    if |s| == 0 then 0 else MemoHelperCorrected(s, 0)
  }

  // ---------------------------------------------------------------------------
  // The window together with where it lies
  // ---------------------------------------------------------------------------

  /** find_longest_substring_details: the length, the substring, and its first
      and last index. The best span is replaced only by a strictly longer one,
      so it is the longest window that ends first, started as far left as
      possible; an empty string gives (0, "", 0, 0). */
  method FindLongestSubstringDetails(s: string)
    returns (maxLength: nat, substring: string, bestLeft: nat, bestRight: nat)
    ensures maxLength == LongestUnique(s)
    ensures |s| == 0 ==> maxLength == 0 && substring == "" && bestLeft == 0 && bestRight == 0
    ensures |s| > 0 ==> bestLeft <= bestRight < |s| && maxLength == bestRight - bestLeft + 1
    ensures |s| > 0 ==> substring == s[bestLeft..bestRight + 1] && UniqueRange(s, bestLeft, bestRight + 1)
    ensures |s| > 0 ==> bestLeft == WindowStart(s, bestRight + 1)
    ensures |s| > 0 ==> forall i, j :: 0 <= i <= j <= bestRight && UniqueRange(s, i, j) ==> j - i < maxLength
  {
    if |s| == 0 {
      return 0, "", 0, 0;
    }
    var charIndex: map<char, int> := map[];
    var left := 0;
    maxLength, bestLeft, bestRight := 0, 0, 0;
    for right := 0 to |s|
      invariant left == WindowStart(s, right)
      invariant IsLastTable(s, right, charIndex)
      invariant maxLength == LongestUpTo(s, right)
      invariant right > 0 ==> BestSoFar(s, right, bestLeft, bestRight, maxLength)
    {
      var c := s[right];
      JumpStep(s, right, charIndex, left);
      if c in charIndex && charIndex[c] >= left {
        left := charIndex[c] + 1;
      }
      assert left == WindowStart(s, right + 1);
      LastTableStep(s, right, charIndex);
      charIndex := charIndex[c := right];
      assert LongestUpTo(s, right + 1) == Max(maxLength, right - left + 1);
      if right - left + 1 > maxLength {
        maxLength := right - left + 1;
        bestLeft := left;
        bestRight := right;
      }
    }
    substring := s[bestLeft..bestRight + 1];
    BestSpan(s, bestRight);
  }

  // ---------------------------------------------------------------------------
  // Character statistics
  // ---------------------------------------------------------------------------

  /** The dictionary analyze_string_patterns returns: {"empty": True} for an
      empty string, otherwise its six statistics. */
  datatype Patterns =
    | EmptyText
    | Stats(length: nat, uniqueChars: nat, maxCharFrequency: nat,
            mostFrequentChar: (char, nat), hasRepeats: bool, allUnique: bool)

  /** How often c occurs in s. */
  function Occurrences(s: string, c: char): nat
  {
    multiset(s)[c]
  }

  /** The counts a defaultdict(int) holds after `count[ch] += 1` for each ch
      of s in turn. */
  function CountMap(s: string): map<char, nat>
  {
    if |s| == 0 then map[]
    else
      var m := CountMap(s[..|s| - 1]);
      var c := s[|s| - 1];
      m[c := (if c in m then m[c] else 0) + 1]
  }

  /** The keys of that dictionary in insertion order: each distinct character
      of s, in order of first appearance. */
  function Firsts(s: string): seq<char>
  {
    if |s| == 0 then []
    else if s[|s| - 1] in s[..|s| - 1] then Firsts(s[..|s| - 1])
    else Firsts(s[..|s| - 1]) + [s[|s| - 1]]
  }

  /** Where c first occurs in s, or |s| when it does not occur. */
  function FirstIndex(s: string, c: char): (k: nat)
    ensures k <= |s| && c !in s[..k]
    ensures k < |s| <==> c in s
    ensures k < |s| ==> s[k] == c
  {
    if |s| == 0 then 0
    else if s[0] == c then 0
    else
      var k := FirstIndex(s[1..], c);
      assert s[..k + 1] == [s[0]] + s[1..][..k];
      assert c in s ==> c in s[1..] by {
        if c in s {
          var p :| 0 <= p < |s| && s[p] == c;
          assert s[1..][p - 1] == c;
        }
      }
      k + 1
  }

  /** The dictionary counts every character of s, and only those. */
  lemma {:induction false} CountMapSpec(s: string)
    ensures forall c :: c in CountMap(s) <==> c in s
    ensures forall c :: c in CountMap(s) ==> CountMap(s)[c] == Occurrences(s, c)
  {
    if |s| > 0 {
      var t := s[..|s| - 1];
      CountMapSpec(t);
      assert s == t + [s[|s| - 1]];
      assert multiset(s) == multiset(t) + multiset{s[|s| - 1]};
    }
  }

  /** A character first occurs at k exactly when k is its FirstIndex. */
  lemma FirstIndexUnique(s: string, c: char, k: nat)
    requires k < |s| && s[k] == c && c !in s[..k]
    ensures FirstIndex(s, c) == k
  {
  }

  /** The key order lists every character of s, ordered by first occurrence. */
  lemma {:induction false} FirstsSpec(s: string)
    ensures forall c :: c in Firsts(s) <==> c in s
    ensures forall j, k :: 0 <= j < k < |Firsts(s)| ==> FirstIndex(s, Firsts(s)[j]) < FirstIndex(s, Firsts(s)[k])
  {
    if |s| > 0 {
      var t := s[..|s| - 1];
      var x := s[|s| - 1];
      FirstsSpec(t);
      assert s == t + [x];
      forall c | c in t ensures FirstIndex(s, c) == FirstIndex(t, c) {
        var f := FirstIndex(t, c);
        assert s[..f] == t[..f];
        FirstIndexUnique(s, c, f);
      }
      if x !in t {
        assert x !in s[..|t|];
        FirstIndexUnique(s, x, |t|);
      }
    }
  }

  /** A repeated character is one that occurs more than once. */
  lemma {:induction false} RepeatIffCount(s: string)
    ensures !UniqueRange(s, 0, |s|) <==> exists c :: c in s && Occurrences(s, c) > 1
  {
    if |s| > 0 {
      var t := s[..|s| - 1];
      var x := s[|s| - 1];
      RepeatIffCount(t);
      assert s == t + [x];
      assert multiset(s) == multiset(t) + multiset{x};
      if UniqueRange(s, 0, |s|) {
        assert UniqueRange(t, 0, |t|);
        assert x !in t;
        forall c | c in s ensures Occurrences(s, c) <= 1 {
          if c != x {
            assert c in t;
          }
        }
      } else {
        var p, q :| 0 <= p < q < |s| && s[p] == s[q];
        if q < |t| {
          assert t[p] == t[q];
          var c :| c in t && Occurrences(t, c) > 1;
          assert c in s;
        } else {
          assert t[p] == x;
          assert Occurrences(s, x) > 1;
        }
      }
    }
  }

  /** The dictionary's values in key order: the count of each distinct
      character, in order of first appearance. */
  function KeyCounts(s: string): seq<nat>
  {
    seq(|Firsts(s)|, j requires 0 <= j < |Firsts(s)| => Occurrences(s, Firsts(s)[j]))
  }

  /** Python's max(items, key=...) over a non-empty sequence of counts: the
      position of the first largest count. */
  function FirstMax(xs: seq<nat>): (b: nat)
    requires |xs| > 0
    ensures b < |xs|
    ensures forall k :: 0 <= k < |xs| ==> xs[k] <= xs[b]
    ensures forall k :: 0 <= k < b ==> xs[k] < xs[b]
  {
    if |xs| == 1 then 0
    else
      var b := FirstMax(xs[..|xs| - 1]);
      if xs[|xs| - 1] > xs[b] then |xs| - 1 else b
  }

  /** Python's any(x > t for x in xs). */
  function AnyAbove(xs: seq<nat>, t: nat): (r: bool)
    ensures r <==> exists k :: 0 <= k < |xs| && xs[k] > t
  {
    if |xs| == 0 then false
    else
      assert forall k :: 1 <= k < |xs| ==> xs[k] == xs[1..][k - 1];
      xs[0] > t || AnyAbove(xs[1..], t)
  }

  /** The key chosen by a first-wins maximum has a strictly larger count than
      every character that appears before it in s. */
  lemma EarliestMax(s: string, best: nat)
    requires best < |KeyCounts(s)|
    requires forall j :: 0 <= j < best ==> KeyCounts(s)[j] < KeyCounts(s)[best]
    ensures forall p :: 0 <= p < FirstIndex(s, Firsts(s)[best]) ==> Occurrences(s, s[p]) < Occurrences(s, Firsts(s)[best])
  {
    var keys := Firsts(s);
    FirstsSpec(s);
    forall p | 0 <= p < FirstIndex(s, keys[best])
      ensures Occurrences(s, s[p]) < Occurrences(s, keys[best])
    {
      var c := s[p];
      assert c in keys;
      var j :| 0 <= j < |keys| && keys[j] == c;
      assert FirstIndex(s, c) <= p;
      assert KeyCounts(s)[j] < KeyCounts(s)[best];
    }
  }

  /** One count per distinct character. */
  lemma KeyCountsCard(s: string)
    ensures |KeyCounts(s)| == |Elems(s)|
    ensures |s| > 0 ==> |KeyCounts(s)| > 0
  {
    FirstsSpec(s);
    KeysDistinct(s);
    DistinctCard(Firsts(s));
    assert Elems(Firsts(s)) == Elems(s);
    if |s| > 0 {
      assert s[0] in Firsts(s);
    }
  }

  /** The largest count bounds every character's count and belongs to the
      first key that reaches it, which no earlier character of s reaches. */
  lemma KeyCountsMax(s: string)
    requires |s| > 0
    ensures |KeyCounts(s)| > 0
    ensures forall c :: c in s ==> Occurrences(s, c) <= MaxOf(KeyCounts(s))
    ensures Firsts(s)[FirstMax(KeyCounts(s))] in s
    ensures MaxOf(KeyCounts(s)) == Occurrences(s, Firsts(s)[FirstMax(KeyCounts(s))])
    ensures forall p :: 0 <= p < FirstIndex(s, Firsts(s)[FirstMax(KeyCounts(s))]) ==>
              Occurrences(s, s[p]) < MaxOf(KeyCounts(s))
  {
    var keys, counts := Firsts(s), KeyCounts(s);
    FirstsSpec(s);
    assert s[0] in keys;
    var best := FirstMax(counts);
    var m := MaxOf(counts);
    assert m == counts[best];
    forall c | c in s ensures Occurrences(s, c) <= m {
      var j :| 0 <= j < |keys| && keys[j] == c;
      assert counts[j] == Occurrences(s, c);
    }
    EarliestMax(s, best);
  }

  /** Some count exceeds one exactly when s has a repeated character. */
  lemma KeyCountsRepeat(s: string)
    ensures AnyAbove(KeyCounts(s), 1) <==> !UniqueRange(s, 0, |s|)
  {
    var keys, counts := Firsts(s), KeyCounts(s);
    FirstsSpec(s);
    RepeatIffCount(s);
    if !UniqueRange(s, 0, |s|) {
      var c :| c in s && Occurrences(s, c) > 1;
      var j :| 0 <= j < |keys| && keys[j] == c;
      assert counts[j] > 1;
    }
  }

  /** Every key is counted, with its number of occurrences. */
  lemma KeysCounted(s: string)
    ensures forall j :: 0 <= j < |Firsts(s)| ==>
              Firsts(s)[j] in CountMap(s) && CountMap(s)[Firsts(s)[j]] == KeyCounts(s)[j]
  {
    FirstsSpec(s);
    CountMapSpec(s);
  }

  /** The key order holds each character once. */
  lemma KeysDistinct(s: string)
    ensures UniqueRange(Firsts(s), 0, |Firsts(s)|)
  {
    FirstsSpec(s);
  }

  /** A sequence of distinct elements has as many elements as its set. */
  lemma DistinctCard(t: seq<char>)
    requires UniqueRange(t, 0, |t|)
    ensures |Elems(t)| == |t|
  {
    ElemsCard(t);
  }

  /** The counting loop of analyze_string_patterns: `char_count[ch] += 1` on a
      defaultdict(int) for each character, which also fixes the key order. */
  method CountCharacters(s: string) returns (charCount: map<char, nat>, keys: seq<char>)
    ensures charCount == CountMap(s) && keys == Firsts(s)
  {
    charCount, keys := map[], [];
    for i := 0 to |s|
      invariant charCount == CountMap(s[..i]) && keys == Firsts(s[..i])
    {
      var c := s[i];
      assert s[..i + 1][..i] == s[..i];
      CountMapSpec(s[..i]);
      if c !in charCount {
        keys := keys + [c];
        charCount := charCount[c := 0];
      }
      charCount := charCount[c := charCount[c] + 1];
    }
    assert s[..|s|] == s;
  }

  /** analyze_string_patterns: count each character, then report the length,
      the number of distinct characters, the highest count, the first key (in
      first-appearance order) with that count, whether some count exceeds 1,
      and whether every character is distinct. */
  method AnalyzeStringPatterns(s: string) returns (r: Patterns)
    ensures |s| == 0 <==> r.EmptyText?
    ensures r.Stats? ==> r.length == |s| && r.uniqueChars == |Elems(s)|
    ensures r.Stats? ==> r.mostFrequentChar.0 in s
    ensures r.Stats? ==> r.mostFrequentChar.1 == r.maxCharFrequency == Occurrences(s, r.mostFrequentChar.0)
    ensures r.Stats? ==> forall c :: c in s ==> Occurrences(s, c) <= r.maxCharFrequency
    ensures r.Stats? ==> forall p :: 0 <= p < FirstIndex(s, r.mostFrequentChar.0) ==> Occurrences(s, s[p]) < r.maxCharFrequency
    ensures r.Stats? ==> (r.allUnique <==> UniqueRange(s, 0, |s|)) && r.hasRepeats == !r.allUnique
  {
    if |s| == 0 {
      return EmptyText;
    }
    var charCount, keys := CountCharacters(s);
    KeysCounted(s);
    var values := seq(|keys|, j requires 0 <= j < |keys| => charCount[keys[j]]);
    assert values == KeyCounts(s);
    KeyCountsCard(s);
    KeyCountsMax(s);
    KeyCountsRepeat(s);
    var maxFreq := MaxOf(values);
    var best := FirstMax(values);
    var hasRepeats := AnyAbove(values, 1);
    ElemsCard(s);
    assert charCount.Keys == Elems(s) by {
      CountMapSpec(s);
    }
    r := Stats(|s|, |charCount|, maxFreq, (keys[best], values[best]), hasRepeats, |charCount| == |s|);
  }
}
