/**
  The C variants of "Longest Substring Without Repeating Characters".

  A C string is modelled by the bytes strlen counts, each read through an
  `unsigned char` cast, so every byte is an index into the 256-entry tables the
  variants keep (char_set, char_index, seen). Every variant is proved to return
  UniqueWindow.LongestUnique(s).
*/
module LongestSubstringC {
  import opened UniqueWindow

  /** A byte as read through `(unsigned char)`. */
  type byte = x: int | 0 <= x < 256

  /** The bytes of a C string stop at its terminator, so none of them is NUL. */
  predicate NoNul(s: seq<byte>)
  {
    forall k :: 0 <= k < |s| ==> s[k] != 0
  }

  /** The contents of a 256-entry flag table that marks exactly the bytes
      of t. */
  function FlagsOf(t: seq<byte>): (flags: seq<bool>)
    ensures |flags| == 256
  {
    seq(256, b requires 0 <= b < 256 => b in t)
  }

  /** Setting the flag of c marks one more byte. */
  lemma FlagsAppend(t: seq<byte>, c: byte)
    ensures FlagsOf(t)[c := true] == FlagsOf(t + [c])
  {
  }

  /** Clearing the flag of the first byte of t, which does not recur in t,
      unmarks exactly that byte. */
  lemma FlagsDropFirst(t: seq<byte>)
    requires |t| > 0 && t[0] !in t[1..]
    ensures FlagsOf(t)[t[0] := false] == FlagsOf(t[1..])
  {
    assert t == [t[0]] + t[1..];
  }

  /** The contents of a 256-entry index table that holds, for every byte, its
      last index before e (-1 when it has not occurred). */
  function LastTable(s: seq<byte>, e: nat): (table: seq<int>)
    requires e <= |s|
    ensures |table| == 256
  {
    seq(256, b requires 0 <= b < 256 => LastBefore<byte>(s, e, b))
  }

  /** Recording index e in the entry of s[e] keeps the table exact. */
  lemma LastTableNext(s: seq<byte>, e: nat)
    requires e < |s|
    ensures LastTable(s, e)[s[e] := e] == LastTable(s, e + 1)
  {
  }

  /** A window at least one byte long exists in every non-empty string. */
  lemma LongestPositive(s: seq<byte>)
    requires |s| > 0
    ensures LongestUnique(s) >= 1
  {
    RunFromSpec(s, 0, 1);
    MaxRunBound(s, 0, |s|, 0);
  }

  // ---------------------------------------------------------------------------
  // Brute force
  // ---------------------------------------------------------------------------

  /** allUnique: scan s[start..end) with a fresh char_set, failing at the
      first byte already marked. */
  method AllUnique(s: seq<byte>, start: nat, end: nat) returns (r: bool)
    requires end <= |s|
    ensures r <==> UniqueRange(s, start, end)
  {
    var charSet := new bool[256](_ => false);
    var i := start;
    while i < end
      invariant start < end ==> start <= i <= end && charSet[..] == FlagsOf(s[start..i]) && UniqueRange(s, start, i)
      invariant start >= end ==> i == start
      decreases end - i
    {
      var c := s[i];
      if charSet[c] {
        RunStops(s, start, i);
        return false;
      }
      UniqueExtend(s, start, i);
      assert s[start..i + 1] == s[start..i] + [c];
      FlagsAppend(s[start..i], c);
      ghost var flags := charSet[..];
      charSet[c] := true;
      assert charSet[..] == flags[c := true];
      i := i + 1;
    }
    return true;
  }

  /** Every substring s[i..j) tested with allUnique; the maximum starts at 1,
      so a non-empty string gives at least 1. */
  method BruteForce(s: seq<byte>) returns (maxLen: nat)
    ensures maxLen == LongestUnique(s)
    ensures |s| > 0 ==> maxLen >= 1
  {
    var n := |s|;
    if n == 0 {
      return 0;
    }
    maxLen := 1;
    for i := 0 to n
      invariant maxLen == Max(1, MaxRun(s, 0, i))
    {
      for j := i + 1 to n + 1
        invariant maxLen == Max(1, Max(MaxRun(s, 0, i), Min(j - 1 - i, RunFrom(s, i))))
      {
        RunFromSpec(s, i, j);
        var unique := AllUnique(s, i, j);
        if unique {
          var currentLen := j - i;
          maxLen := if currentLen > maxLen then currentLen else maxLen;
        }
      }
    }
    LongestPositive(s);
  }

  // ---------------------------------------------------------------------------
  // Sliding windows over s[left..right]
  // ---------------------------------------------------------------------------

  /** The inner loop of SlidingWindow: while s[right] is marked, unmark s[left]
      and advance left. It stops exactly at the leftmost start of a distinct
      window ending at right. */
  method ShrinkWindow(s: seq<byte>, charSet: array<bool>, left: nat, right: nat)
    returns (newLeft: nat)
    requires right < |s| && charSet.Length == 256
    requires left == WindowStart(s, right) && charSet[..] == FlagsOf(s[left..right])
    modifies charSet
    ensures newLeft == WindowStart(s, right + 1)
    ensures charSet[..] == FlagsOf(s[newLeft..right])
  {
    newLeft := left;
    WindowStartMonotone(s, right, right + 1);
    while charSet[s[right]]
      invariant WindowStart(s, right) <= newLeft <= WindowStart(s, right + 1)
      invariant charSet[..] == FlagsOf(s[newLeft..right])
      decreases right - newLeft
    {
      ShrinkStep(s, newLeft, right);
      assert s[newLeft..right][1..] == s[newLeft + 1..right];
      assert s[newLeft] !in s[newLeft + 1..right] by {
        WindowStartSpec(s, right, newLeft);
        SliceUnique(s, newLeft, right);
      }
      FlagsDropFirst(s[newLeft..right]);
      ghost var flags := charSet[..];
      charSet[s[newLeft]] := false;
      assert charSet[..] == flags[s[newLeft] := false];
      newLeft := newLeft + 1;
    }
    ShrinkDone(s, newLeft, right);
  }

  /** char_set marks the bytes of the window; the window shrinks from the left
      until the next byte is unmarked, then takes it in. */
  method SlidingWindow(s: seq<byte>) returns (maxLen: nat)
    ensures maxLen == LongestUnique(s)
  {
    var n := |s|;
    if n == 0 {
      return 0;
    }
    var charSet := new bool[256](_ => false);
    var left, right := 0, 0;
    maxLen := 0;
    while right < n
      invariant right <= n && left == WindowStart(s, right)
      invariant charSet[..] == FlagsOf(s[left..right])
      invariant maxLen == LongestUpTo(s, right)
      decreases n - right
    {
      var rightChar := s[right];
      left := ShrinkWindow(s, charSet, left, right);
      assert s[left..right + 1] == s[left..right] + [rightChar];
      FlagsAppend(s[left..right], rightChar);
      ghost var flags := charSet[..];
      charSet[rightChar] := true;
      assert charSet[..] == flags[rightChar := true];
      var currentLen := right - left + 1;
      maxLen := if currentLen > maxLen then currentLen else maxLen;
      right := right + 1;
    }
    LongestUpToIsLongest(s);
  }

  /** char_index holds each byte's last index; left jumps past the last
      occurrence of s[right] when that lies inside the window. */
  method Optimized(s: seq<byte>) returns (maxLen: nat)
    ensures maxLen == LongestUnique(s)
  {
    var n := |s|;
    if n == 0 {
      return 0;
    }
    var charIndex := new int[256](_ => -1);
    var left := 0;
    maxLen := 0;
    for right := 0 to n
      invariant left == WindowStart(s, right)
      invariant charIndex[..] == LastTable(s, right)
      invariant maxLen == LongestUpTo(s, right)
    {
      var currentChar := s[right];
      var lastSeen := charIndex[currentChar];
      if lastSeen >= left {
        left := lastSeen + 1;
      }
      LastTableNext(s, right);
      ghost var table := charIndex[..];
      charIndex[currentChar] := right;
      assert charIndex[..] == table[currentChar := right];
      var currentLen := right - left + 1;
      maxLen := if currentLen > maxLen then currentLen else maxLen;
    }
    LongestUpToIsLongest(s);
  }

  /** Optimized with a 26-entry table indexed by `c - 'a'`, for strings made of
      lowercase letters only. */
  method Lowercase(s: seq<byte>) returns (maxLen: nat)
    requires forall k :: 0 <= k < |s| ==> 'a' as int <= s[k] <= 'z' as int
    ensures maxLen == LongestUnique(s)
  {
    var n := |s|;
    if n == 0 {
      return 0;
    }
    var charIndex := new int[26](_ => -1);
    var left := 0;
    maxLen := 0;
    for right := 0 to n
      invariant left == WindowStart(s, right)
      invariant forall k :: 0 <= k < 26 ==> charIndex[k] == LastBefore<byte>(s, right, k + 'a' as int)
      invariant maxLen == LongestUpTo(s, right)
    {
      var currentChar := s[right];
      if 'a' as int <= currentChar <= 'z' as int {
        var charIdx := currentChar - 'a' as int;
        if charIndex[charIdx] >= left {
          left := charIndex[charIdx] + 1;
        }
        charIndex[charIdx] := right;
        var currentLen := right - left + 1;
        maxLen := if currentLen > maxLen then currentLen else maxLen;
      }
    }
    LongestUpToIsLongest(s);
  }

  // ---------------------------------------------------------------------------
  // Recursion over start positions
  // ---------------------------------------------------------------------------

  /** lengthOfLongestSubstring_Recursive_Helper: clear seen, measure the run
      that starts at start within s[..end], fold it into max_len and recurse on
      start + 1 until start passes end. */
  method RecursiveHelper(s: seq<byte>, start: nat, end: int, seen: array<bool>, maxLen: nat)
    returns (r: nat)
    requires seen.Length == 256 && -1 <= end < |s| && start <= end + 1
    modifies seen
    ensures r == Max(maxLen, MaxRun(s[..end + 1], start, end + 1))
    decreases end + 1 - start
  {
    if start > end {
      return maxLen;
    }
    forall b | 0 <= b < 256 {
      seen[b] := false;
    }
    assert seen[..] == FlagsOf([]);
    ghost var t := s[..end + 1];
    var localLen := 0;
    for i := start to end + 1
      invariant seen[..] == FlagsOf(t[start..i]) && localLen == i - start
      invariant i <= start + RunFrom(t, start)
    {
      var c := s[i];
      assert t[i] == c;
      RunScanStep(t, start, i);
      if seen[c] {
        break;
      }
      assert t[start..i + 1] == t[start..i] + [c];
      FlagsAppend(t[start..i], c);
      ghost var flags := seen[..];
      seen[c] := true;
      assert seen[..] == flags[c := true];
      localLen := localLen + 1;
    }
    assert localLen == RunFrom(t, start);
    var newMax := if localLen > maxLen then localLen else maxLen;
    MaxRunFirst(t, start, end + 1);
    r := RecursiveHelper(s, start + 1, end, seen, newMax);
  }

  /** The recursion started at 0 over the whole string with one shared seen
      buffer. */
  method Recursive(s: seq<byte>) returns (r: nat)
    ensures r == LongestUnique(s)
  {
    var n := |s|;
    if n == 0 {
      return 0;
    }
    var seen := new bool[256];
    r := RecursiveHelper(s, 0, n - 1, seen, 0);
    assert s[..n] == s;
  }

  // ---------------------------------------------------------------------------
  // The window together with where it lies, copied into a 256-byte buffer
  // ---------------------------------------------------------------------------

  /** SubstringResult: the length, the first and last index, and the contents
      of the 256-byte `substring` buffer. */
  datatype SubstringResult = SubstringResult(length: int, startIndex: int, endIndex: int, substring: seq<byte>)

  /** A distinct window of non-NUL bytes holds at most 255 bytes: there are
      only 255 values it can take. */
  lemma NoNulWindowBound(s: seq<byte>, i: nat, j: nat)
    requires i <= j <= |s| && NoNul(s) && UniqueRange(s, i, j)
    ensures j - i <= 255
  {
    var t := s[i..j];
    SliceUnique(s, i, j);
    ElemsCard(t);
    var nonNul: seq<byte> := seq(255, k requires 0 <= k < 255 => k + 1);
    ElemsCard(nonNul);
    forall b | b in t ensures b in nonNul {
      var k :| 0 <= k < |t| && t[k] == b;
      assert s[i + k] == b;
      assert nonNul[b - 1] == b;
    }
    assert Elems(nonNul) == Elems(t) + (Elems(nonNul) - Elems(t));
  }

  /** The length of the C string src holds: the bytes before its first NUL,
      or all of src when its terminator lies just past its end. */
  function CLen(src: seq<byte>): (len: nat)
    ensures len <= |src|
    ensures forall k :: 0 <= k < len ==> src[k] != 0
    ensures len < |src| ==> src[len] == 0
  {
    if |src| == 0 || src[0] == 0 then 0 else 1 + CLen(src[1..])
  }

  /** A string without NUL bytes is a C string of its full length. */
  lemma {:induction false} CLenNoNul(src: seq<byte>)
    requires NoNul(src)
    ensures CLen(src) == |src|
  {
    if |src| > 0 {
      assert src[0] != 0;
      CLenNoNul(src[1..]);
    }
  }

  /** strncpy(dest, src, n): the bytes of the C string src are copied, at
      most n of them, and the rest of the first n bytes of dest are filled
      with zeros; dest past n is untouched. */
  method StrNCopy(dest: array<byte>, src: seq<byte>, n: nat)
    requires n <= dest.Length
    modifies dest
    ensures forall k :: 0 <= k < n && k < CLen(src) ==> dest[k] == src[k]
    ensures forall k :: CLen(src) <= k < n ==> dest[k] == 0
    ensures dest[n..] == old(dest[n..])
  {
    var k := 0;
    while k < n && k < |src| && src[k] != 0
      invariant k <= n && k <= CLen(src)
      invariant forall j :: 0 <= j < k ==> dest[j] == src[j]
      invariant dest[n..] == old(dest[n..])
    {
      dest[k] := src[k];
      k := k + 1;
    }
    var copied := k;
    while k < n
      invariant copied <= k <= n && copied <= CLen(src)
      invariant copied < n ==> copied == CLen(src)
      invariant forall j :: 0 <= j < copied ==> dest[j] == src[j]
      invariant forall j :: copied <= j < k ==> dest[j] == 0
      invariant dest[n..] == old(dest[n..])
    {
      dest[k] := 0;
      k := k + 1;
    }
  }

  /** The copy into the zero-filled result buffer: strncpy of the first n
      bytes of a NUL-free string, then the terminator at n. The buffer then
      holds those bytes followed by zeros only. */
  method CopyTerminated(buffer: array<byte>, src: seq<byte>, n: nat)
    requires buffer.Length == 256 && n < 256 && n <= |src| && NoNul(src)
    requires forall k :: 0 <= k < 256 ==> buffer[k] == 0
    modifies buffer
    ensures buffer[..n] == src[..n]
    ensures forall k :: n <= k < 256 ==> buffer[k] == 0
  {
    CLenNoNul(src);
    ghost var zeros := buffer[..];
    StrNCopy(buffer, src, n);
    assert forall k :: n <= k < 256 ==> buffer[k] == buffer[n..][k - n] == zeros[k];
    buffer[n] := 0;
  }

  /** The scan of findLongestSubstringWithDetails over a non-empty string: the
      index-jumping window, with the best span replaced only by a strictly
      longer one, so it is the longest window that ends first. */
  method ScanBestSpan(s: seq<byte>) returns (maxLen: nat, bestLeft: nat, bestRight: nat)
    requires |s| > 0
    ensures maxLen == LongestUnique(s)
    ensures bestLeft <= bestRight < |s| && maxLen == bestRight - bestLeft + 1
    ensures UniqueRange(s, bestLeft, bestRight + 1) && bestLeft == WindowStart(s, bestRight + 1)
    ensures forall i, j :: 0 <= i <= j <= bestRight && UniqueRange(s, i, j) ==> j - i < maxLen
  {
    var charIndex := new int[256](_ => -1);
    var left := 0;
    maxLen, bestLeft, bestRight := 0, 0, 0;
    for right := 0 to |s|
      invariant left == WindowStart(s, right)
      invariant charIndex[..] == LastTable(s, right)
      invariant maxLen == LongestUpTo(s, right)
      invariant right > 0 ==> BestSoFar(s, right, bestLeft, bestRight, maxLen)
    {
      var currentChar := s[right];
      if charIndex[currentChar] >= left {
        left := charIndex[currentChar] + 1;
      }
      LastTableNext(s, right);
      ghost var table := charIndex[..];
      charIndex[currentChar] := right;
      assert charIndex[..] == table[currentChar := right];
      var currentLen := right - left + 1;
      assert LongestUpTo(s, right + 1) == Max(maxLen, currentLen);
      if currentLen > maxLen {
        maxLen := currentLen;
        bestLeft := left;
        bestRight := right;
      }
    }
    BestSpan(s, bestRight);
  }

  /** findLongestSubstringWithDetails: the zero-filled result, left as it is for
      an empty string; otherwise the best span from the scan, copied with
      strncpy into the 256-byte buffer and terminated at its length. */
  method FindLongestSubstringWithDetails(s: seq<byte>) returns (result: SubstringResult)
    requires NoNul(s)
    ensures |result.substring| == 256
    ensures result.length == LongestUnique(s)
    ensures |s| == 0 ==> result == SubstringResult(0, 0, 0, seq(256, _ => 0))
    ensures |s| > 0 ==> 0 <= result.startIndex <= result.endIndex < |s|
    ensures |s| > 0 ==> result.length == result.endIndex - result.startIndex + 1 <= 255
    ensures |s| > 0 ==> result.substring[..result.length] == s[result.startIndex..result.endIndex + 1]
    ensures |s| > 0 ==> forall k :: result.length <= k < 256 ==> result.substring[k] == 0
    ensures |s| > 0 ==> UniqueRange(s, result.startIndex, result.endIndex + 1)
    ensures |s| > 0 ==> result.startIndex == WindowStart(s, result.endIndex + 1)
    ensures |s| > 0 ==> forall i, j :: 0 <= i <= j <= result.endIndex && UniqueRange(s, i, j) ==> j - i < result.length
  {
    var buffer := new byte[256](_ => 0);
    var n := |s|;
    if n == 0 {
      return SubstringResult(0, 0, 0, buffer[..]);
    }
    var maxLen, bestLeft, bestRight := ScanBestSpan(s);
    NoNulWindowBound(s, bestLeft, bestRight + 1);
    var substringLen := bestRight - bestLeft + 1;
    CopyTerminated(buffer, s[bestLeft..], substringLen);
    assert s[bestLeft..][..substringLen] == s[bestLeft..bestRight + 1];
    result := SubstringResult(maxLen, bestLeft, bestRight, buffer[..]);
  }
}
