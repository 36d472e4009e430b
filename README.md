# Three classic interview problems, in Python and in C

This project models, in Dafny, the core of three solution files that the
repository writes twice, once in Python and once in C:

- **Longest Substring Without Repeating Characters**: the length of the
  longest window of a string whose characters are pairwise distinct. The
  variants are brute force, a sliding window over a set, a jump table of last
  positions, `dict.get`, a deque, and "expand from every start" in four styles
  (functional, list comprehension, generator, recursion). There is also a
  recursion with memoization, the span of the best window, and statistics on
  character counts. In C the window works on bytes, with 256-entry tables.
- **Add Two Numbers**: two numbers stored as singly linked lists of digits,
  least significant first, added into a new list. The variants are the
  dummy-head loop, the recursion with a carry, a detour through integers, a
  generator, and `reduce` over `zip_longest`. There is also the follow-up for
  lists stored most significant first: copy, reverse, add, reverse. Around
  these sit the list builders and readers (`create_list`, `list_to_number`,
  `copy_list`, `reverse_list`).
- **Two Sum**: two distinct positions whose values add up to a target. The
  variants are nested loops, a one-pass hash map, sorting with two pointers, a
  generator expression, and in C sorting with binary search and an
  open-addressing hash table with linear probing.

Every variant is proved against one reference definition per problem:

- `UniqueWindow.LongestUnique` for the substring problem;
- `DigitLists.AddDigits` and `DigitLists.Value` for the list addition;
- the predicates of `PairSum` for Two Sum.

Python lists, strings and dictionaries are values (`seq`, `string`, `map`).

- Linked lists are heaps of `ListNode` objects. Each list is described by a
  ghost sequence of its nodes and a ghost sequence of its values.
- C arrays are `array`s, and C strings are byte sequences (the bytes `strlen`
  counts).
- C's `int` and `long long` ranges are stated explicitly where an operation
  could leave them.

## Model

| member | source | states |
|---|---|---|
| UniqueWindow.RunFromSpec | string/longest_substring_without_repeating_characters/longest_substring_without_repeating_characters.py:151-158 | the windows starting at i that are distinct are exactly those no longer than RunFrom(s, i), the run a scan from i measures |
| UniqueWindow.RunFromExact | string/longest_substring_without_repeating_characters/longest_substring_without_repeating_characters.py:176-182 | a distinct window from start that ends at the string's end or just before a repeated character is exactly RunFrom(s, start) long |
| UniqueWindow.RunScanStep | string/longest_substring_without_repeating_characters/longest_substring_without_repeating_characters.py:201-205 | during a scan from start, the next character is already seen if and only if the scan has reached the end of the run |
| UniqueWindow.MaxRunBound | string/longest_substring_without_repeating_characters/longest_substring_without_repeating_characters.py:160 | the maximum over a range of starts is at least the run of every start in it |
| UniqueWindow.MaxRunAttained | string/longest_substring_without_repeating_characters/longest_substring_without_repeating_characters.py:160 | the maximum over a non-empty range of starts is the run of one of them |
| UniqueWindow.MaxRunFirst | string/longest_substring_without_repeating_characters/longest_substring_without_repeating_characters.c:171-194 | the maximum over starts lo..hi-1 is the larger of lo's run and the maximum over the later starts, which is the shape of a recursion on the start |
| UniqueWindow.LongestUpperBound | string/longest_substring_without_repeating_characters/longest_substring_without_repeating_characters.py:34-37 | every distinct window is at most LongestUnique(s) long |
| UniqueWindow.LongestAttained | string/longest_substring_without_repeating_characters/longest_substring_without_repeating_characters.py:34-37 | some distinct window is exactly LongestUnique(s) long |
| UniqueWindow.LongestCharacterized | string/longest_substring_without_repeating_characters/longest_substring_without_repeating_characters.py:22-39 | a length that bounds every distinct window and is reached by one is LongestUnique(s) |
| UniqueWindow.LongestWholeIffDistinct | string/longest_substring_without_repeating_characters/longest_substring_without_repeating_characters.py:27-28 | LongestUnique(s) is at most the length of s, and equals it exactly when all characters of s are distinct |
| UniqueWindow.LastBeforeSpec | string/longest_substring_without_repeating_characters/longest_substring_without_repeating_characters.py:77-87 | LastBefore(s, e, c) holds c, and no later position before e does (-1 when c does not occur) |
| UniqueWindow.LastTableStep | string/longest_substring_without_repeating_characters/longest_substring_without_repeating_characters.py:87 | recording the current index for the current character keeps the map of last positions exact |
| UniqueWindow.JumpStep | string/longest_substring_without_repeating_characters/longest_substring_without_repeating_characters.py:83-84 | jumping left past the previous occurrence, when that lies inside the window, gives the start of the next window |
| UniqueWindow.WindowStartSpec | string/longest_substring_without_repeating_characters/longest_substring_without_repeating_characters.py:55-63 | s[i..e] is distinct if and only if WindowStart(s, e) <= i, so the window is the longest distinct suffix of s[..e] |
| UniqueWindow.WindowStartMonotone | string/longest_substring_without_repeating_characters/longest_substring_without_repeating_characters.py:55-59 | the window's left end never moves back |
| UniqueWindow.ShrinkStep | string/longest_substring_without_repeating_characters/longest_substring_without_repeating_characters.py:57-59 | while the new character is still in the window, the left end is below right and below the next window start |
| UniqueWindow.ShrinkDone | string/longest_substring_without_repeating_characters/longest_substring_without_repeating_characters.py:57-59 | once the new character is no longer in the window, the left end is the next window start |
| UniqueWindow.LongestUpToBound | string/longest_substring_without_repeating_characters/longest_substring_without_repeating_characters.py:63 | the running maximum bounds every distinct window inside the prefix scanned so far |
| UniqueWindow.LongestUpToAttained | string/longest_substring_without_repeating_characters/longest_substring_without_repeating_characters.py:63 | the running maximum is the length of a distinct window inside the prefix |
| UniqueWindow.LongestUpToIsLongest | string/longest_substring_without_repeating_characters/longest_substring_without_repeating_characters.py:65 | after the whole string, the running maximum is LongestUnique(s) |
| UniqueWindow.ElemsAppend | string/longest_substring_without_repeating_characters/longest_substring_without_repeating_characters.py:62 | adding the next character to the window adds it to the window's set |
| UniqueWindow.ElemsDropFirst | string/longest_substring_without_repeating_characters/longest_substring_without_repeating_characters.py:58 | removing the leftmost character of a distinct window removes it from the set |
| UniqueWindow.ElemsCard | string/longest_substring_without_repeating_characters/longest_substring_without_repeating_characters.py:27-28 | a sequence has at most as many distinct elements as its length, and exactly as many if and only if its elements are distinct |
| UniqueWindow.RunElemsCard | string/longest_substring_without_repeating_characters/longest_substring_without_repeating_characters.py:158 | the set filled along a run holds RunFrom(s, start) characters |
| UniqueWindow.BestSpan | string/longest_substring_without_repeating_characters/longest_substring_without_repeating_characters.py:262-274 | the last window that strictly beat the running maximum is a longest distinct window, and it is the first one found |
| LongestSubstringPy.AllUnique | string/longest_substring_without_repeating_characters/longest_substring_without_repeating_characters.py:27-28 | true if and only if the substring's characters are pairwise distinct |
| LongestSubstringPy.BruteForce | string/longest_substring_without_repeating_characters/longest_substring_without_repeating_characters.py:22-39 | returns LongestUnique(s) |
| LongestSubstringPy.SlidingWindow | string/longest_substring_without_repeating_characters/longest_substring_without_repeating_characters.py:46-65 | returns LongestUnique(s) |
| LongestSubstringPy.Optimized | string/longest_substring_without_repeating_characters/longest_substring_without_repeating_characters.py:72-90 | returns LongestUnique(s) |
| LongestSubstringPy.Get | string/longest_substring_without_repeating_characters/longest_substring_without_repeating_characters.py:106 | dict.get returns the stored value for a present key and the default otherwise |
| LongestSubstringPy.Pythonic | string/longest_substring_without_repeating_characters/longest_substring_without_repeating_characters.py:97-110 | returns LongestUnique(s) |
| LongestSubstringPy.Deque | string/longest_substring_without_repeating_characters/longest_substring_without_repeating_characters.py:117-136 | returns LongestUnique(s) |
| LongestSubstringPy.ExpandFromPosition | string/longest_substring_without_repeating_characters/longest_substring_without_repeating_characters.py:151-158 | returns RunFrom(s, start) |
| LongestSubstringPy.Functional | string/longest_substring_without_repeating_characters/longest_substring_without_repeating_characters.py:143-160 | returns LongestUnique(s) (0 for the empty string) |
| LongestSubstringPy.UniqueLengthFrom | string/longest_substring_without_repeating_characters/longest_substring_without_repeating_characters.py:176-182 | returns RunFrom(s, start) |
| LongestSubstringPy.MaxOf | string/longest_substring_without_repeating_characters/longest_substring_without_repeating_characters.py:184 | max() of a non-empty list is an element of it and at least every element |
| LongestSubstringPy.MaxOfRuns | string/longest_substring_without_repeating_characters/longest_substring_without_repeating_characters.py:184 | the maximum of the runs from every start is LongestUnique(s) |
| LongestSubstringPy.ListComprehension | string/longest_substring_without_repeating_characters/longest_substring_without_repeating_characters.py:167-184 | returns LongestUnique(s) |
| LongestSubstringPy.Generator | string/longest_substring_without_repeating_characters/longest_substring_without_repeating_characters.py:191-208 | returns LongestUnique(s) |
| LongestSubstringPy.RecursiveMemoOvercounts | string/longest_substring_without_repeating_characters/longest_substring_without_repeating_characters.py:215-245 | the recursion as written gives 3 on "abbc", whose longest distinct window is 2 long. RecursiveMemo and its helper MemoHelper model lengthOfLongestSubstring_recursive_memo and helper as written and have no contract of their own; this lemma fixes their value on "abbc" |
| LongestSubstringPy.MemoHelperAtMost | string/longest_substring_without_repeating_characters/longest_substring_without_repeating_characters.py:222-243 | the as-written helper (MemoHelper) never returns more than the number of characters left from start |
| LongestSubstringPy.ExtendRun | string/longest_substring_without_repeating_characters/longest_substring_without_repeating_characters.py:238 | the include branch, continued only while characters are new, measures the rest of the run from the window's start |
| LongestSubstringPy.MemoHelperCorrectedRuns | string/longest_substring_without_repeating_characters/longest_substring_without_repeating_characters.py:222-243 | the corrected helper from start is the longest run over all starts from start on |
| LongestSubstringPy.RecursiveMemoCorrected | string/longest_substring_without_repeating_characters/longest_substring_without_repeating_characters.py:215-245 | with the include branch corrected, the recursion returns LongestUnique(s) |
| LongestSubstringPy.FindLongestSubstringDetails | string/longest_substring_without_repeating_characters/longest_substring_without_repeating_characters.py:251-276 | the length is LongestUnique(s), and the substring is s[best_left..best_right], a distinct window of that length; it is the first such window and starts as far left as possible; an empty string gives (0, "", 0, 0) |
| LongestSubstringPy.CountMapSpec | string/longest_substring_without_repeating_characters/longest_substring_without_repeating_characters.py:285-287 | the counting dictionary's keys are the characters of s, and each value is that character's number of occurrences |
| LongestSubstringPy.FirstIndex | string/longest_substring_without_repeating_characters/longest_substring_without_repeating_characters.py:285-287 | the position where c first occurs (the length of s when it does not) |
| LongestSubstringPy.FirstsSpec | string/longest_substring_without_repeating_characters/longest_substring_without_repeating_characters.py:285-287 | the dictionary's keys, in insertion order, are the characters of s in the order of their first occurrence |
| LongestSubstringPy.RepeatIffCount | string/longest_substring_without_repeating_characters/longest_substring_without_repeating_characters.py:294 | s has a repeated character if and only if some character occurs more than once |
| LongestSubstringPy.FirstMax | string/longest_substring_without_repeating_characters/longest_substring_without_repeating_characters.py:293 | max with a key returns the first position holding the largest value |
| LongestSubstringPy.AnyAbove | string/longest_substring_without_repeating_characters/longest_substring_without_repeating_characters.py:294 | any(count > t) is true if and only if some count exceeds t |
| LongestSubstringPy.EarliestMax | string/longest_substring_without_repeating_characters/longest_substring_without_repeating_characters.py:293 | every character that occurs before the chosen one has a smaller count |
| LongestSubstringPy.KeyCountsCard | string/longest_substring_without_repeating_characters/longest_substring_without_repeating_characters.py:291 | there are as many counts as distinct characters, and at least one for a non-empty string |
| LongestSubstringPy.KeyCountsMax | string/longest_substring_without_repeating_characters/longest_substring_without_repeating_characters.py:292-293 | the largest count is the count of the most frequent character, no character occurs more often, and the first maximal key occurs in s |
| LongestSubstringPy.KeyCountsRepeat | string/longest_substring_without_repeating_characters/longest_substring_without_repeating_characters.py:294-295 | some count exceeds 1 if and only if s is not distinct |
| LongestSubstringPy.KeysCounted | string/longest_substring_without_repeating_characters/longest_substring_without_repeating_characters.py:289-296 | the counts, taken in key order, are the dictionary's values |
| LongestSubstringPy.KeysDistinct | string/longest_substring_without_repeating_characters/longest_substring_without_repeating_characters.py:285-287 | no key is listed twice |
| LongestSubstringPy.DistinctCard | string/longest_substring_without_repeating_characters/longest_substring_without_repeating_characters.py:295 | a distinct sequence has as many elements as its set |
| LongestSubstringPy.CountCharacters | string/longest_substring_without_repeating_characters/longest_substring_without_repeating_characters.py:285-287 | the loop builds exactly the counting dictionary, with its keys in insertion order |
| LongestSubstringPy.AnalyzeStringPatterns | string/longest_substring_without_repeating_characters/longest_substring_without_repeating_characters.py:278-296 | the "empty" answer comes exactly for the empty string. Otherwise: the length; the number of distinct characters; the most frequent character (the first among ties) and its count, which bounds every other count; has_repeats and all_unique, each the negation of the other and true exactly when they should be |
| LongestSubstringC.FlagsAppend | string/longest_substring_without_repeating_characters/longest_substring_without_repeating_characters.c:76 | setting the new byte's flag gives the flags of the window extended by it |
| LongestSubstringC.FlagsDropFirst | string/longest_substring_without_repeating_characters/longest_substring_without_repeating_characters.c:71-72 | clearing the leftmost byte's flag of a distinct window gives the flags of the window without it |
| LongestSubstringC.LastTableNext | string/longest_substring_without_repeating_characters/longest_substring_without_repeating_characters.c:118 | storing right for the current byte gives the table of last positions one step further |
| LongestSubstringC.LongestPositive | string/longest_substring_without_repeating_characters/longest_substring_without_repeating_characters.c:38 | a non-empty string has a distinct window of length at least 1, so starting max_len at 1 is sound |
| LongestSubstringC.AllUnique | string/longest_substring_without_repeating_characters/longest_substring_without_repeating_characters.c:21-32 | true if and only if s[start..end] has no repeated byte |
| LongestSubstringC.BruteForce | string/longest_substring_without_repeating_characters/longest_substring_without_repeating_characters.c:34-51 | returns LongestUnique(s) (0 for the empty string) |
| LongestSubstringC.ShrinkWindow | string/longest_substring_without_repeating_characters/longest_substring_without_repeating_characters.c:70-73 | left moves to the next window start, and the flags become those of the shrunk window |
| LongestSubstringC.SlidingWindow | string/longest_substring_without_repeating_characters/longest_substring_without_repeating_characters.c:58-86 | returns LongestUnique(s) |
| LongestSubstringC.Optimized | string/longest_substring_without_repeating_characters/longest_substring_without_repeating_characters.c:96-126 | returns LongestUnique(s) |
| LongestSubstringC.Lowercase | string/longest_substring_without_repeating_characters/longest_substring_without_repeating_characters.c:134-164 | on strings of lowercase letters, returns LongestUnique(s) |
| LongestSubstringC.RecursiveHelper | string/longest_substring_without_repeating_characters/longest_substring_without_repeating_characters.c:171-194 | returns the larger of max_len and the longest run from the starts start..end |
| LongestSubstringC.Recursive | string/longest_substring_without_repeating_characters/longest_substring_without_repeating_characters.c:196-202 | returns LongestUnique(s) |
| LongestSubstringC.NoNulWindowBound | string/longest_substring_without_repeating_characters/longest_substring_without_repeating_characters.c:212 | a distinct window of non-NUL bytes is at most 255 long, so the substring and its terminator fit the 256-byte buffer |
| LongestSubstringC.CLen | string/longest_substring_without_repeating_characters/longest_substring_without_repeating_characters.c:253 | the length of the C string a byte sequence holds: its bytes before the first NUL are all non-zero, and the byte at that length is the NUL, unless the string runs to the end of the sequence |
| LongestSubstringC.CLenNoNul | string/longest_substring_without_repeating_characters/longest_substring_without_repeating_characters.c:253 | a byte sequence without NUL is a C string of its full length |
| LongestSubstringC.StrNCopy | string/longest_substring_without_repeating_characters/longest_substring_without_repeating_characters.c:253 | the first n bytes of the destination receive the source's bytes up to its terminator and zeros after it; the rest is unchanged |
| LongestSubstringC.CopyTerminated | string/longest_substring_without_repeating_characters/longest_substring_without_repeating_characters.c:252-254 | copying a window of a NUL-free string into the zero-filled buffer and terminating it leaves exactly the window's bytes followed by zeros |
| LongestSubstringC.ScanBestSpan | string/longest_substring_without_repeating_characters/longest_substring_without_repeating_characters.c:226-245 | max_len is LongestUnique(s), and [best_left, best_right] is a distinct window of that length; it is the first such window and starts as far left as possible |
| LongestSubstringC.FindLongestSubstringWithDetails | string/longest_substring_without_repeating_characters/longest_substring_without_repeating_characters.c:215-257 | the result holds LongestUnique(s) and the window's first and last index. The buffer holds the window's bytes followed by zeros. An empty string gives the zero result |
| DigitLists.ListNode.constructor | linked-list/add_two_numbers/add_two_numbers.py:15-18 | a node holds the value and the successor it is given (the C struct ListNode, add_two_numbers.c:5-8) |
| DigitLists.Append | linked-list/add_two_numbers/add_two_numbers.py:55-56 | linking a new node behind the last one extends the chain behind the dummy head by one value |
| DigitLists.DropDummy | linked-list/add_two_numbers/add_two_numbers.py:61 | the node after the dummy heads the list of the values appended |
| DigitLists.ReverseIndex | linked-list/add_two_numbers/add_two_numbers.py:226-235 | position k of the reverse holds the element at position length-1-k |
| DigitLists.ReverseReverse | linked-list/add_two_numbers/add_two_numbers.py:253-260 | reversing twice gives the original sequence |
| DigitLists.ValueBounds | linked-list/add_two_numbers/add_two_numbers.py:106-114 | n digits spell a number from 0 to 10^n - 1 |
| DigitLists.ValuePrefixBound | linked-list/add_two_numbers/add_two_numbers.c:204-215 | the value of a prefix of the digits is between 0 and the value of the whole list |
| DigitLists.ValuePrefixStep | linked-list/add_two_numbers/add_two_numbers.c:209 | reading the next node adds its digit times 10^k, and the partial value stays below 10^(k+1) |
| DigitLists.ValueAppend | linked-list/add_two_numbers/add_two_numbers.py:111-112 | one more digit d at the end adds d times 10^length |
| DigitLists.ValueMSBReverse | linked-list/add_two_numbers/add_two_numbers.py:220-260 | the number spelled most significant digit first is the number spelled by the reversed digits |
| DigitLists.AddDigitsValue | linked-list/add_two_numbers/add_two_numbers.py:30-61 | the sum's digits spell Value(a) + Value(b) + carry |
| DigitLists.AddDigitsEmpty | linked-list/add_two_numbers/add_two_numbers.py:79-80 | the sum has no digits exactly when both lists are empty and the carry is 0 |
| DigitLists.AddDigitsLength | linked-list/add_two_numbers/add_two_numbers.py:48 | the sum is as long as the longer list, plus one digit exactly when the numbers' sum reaches 10^length |
| DigitLists.CarryIntoBound | linked-list/add_two_numbers/add_two_numbers.py:53 | the carry into every column is 0 or 1, and 0 past the column after the longer list |
| DigitLists.EmittedThenRest | linked-list/add_two_numbers/add_two_numbers.py:48-59 | the digits written for the first k columns, followed by the sum of the rest of both lists with the carry into column k, are the whole sum |
| DigitLists.AddDigitsColumns | linked-list/add_two_numbers/add_two_numbers.py:48-59 | writing (a[k] + b[k] + carry) % 10 column by column, until both lists and the carry are exhausted, writes AddDigits(a, b, 0) |
| DigitLists.CarryColumn | linked-list/add_two_numbers/add_two_numbers.py:214-215 | the column after the longer list writes only the carry left over |
| DigitLists.ColumnsDone | linked-list/add_two_numbers/add_two_numbers.py:48 | when both lists are exhausted and no carry is left, all columns are written and the digits are the sum |
| DigitLists.ColumnsLeft | linked-list/add_two_numbers/add_two_numbers.py:48 | while a list or the carry remains, a column remains |
| DigitLists.ToDigitsSpec | linked-list/add_two_numbers/add_two_numbers.py:123-126 | the digits of n, least significant first, spell n, and the last one is not 0 when n > 0 |
| DigitLists.ToDigitsValue | linked-list/add_two_numbers/add_two_numbers.py:106-128 | digit sequences without a most-significant 0 are exactly the ToDigits of their value |
| DigitLists.LastDigit | linked-list/add_two_numbers/add_two_numbers.py:116-128 | the last digit is not 0 if and only if the number reaches 10^(length-1) |
| ListAdder.AddColumn | linked-list/add_two_numbers/add_two_numbers.py:49-59 | one pass of the loop links (val1 + val2 + carry) % 10, moves both lists on and carries the rest; the adder's state holds one column further |
| ListAdder.AddIterative | linked-list/add_two_numbers/add_two_numbers.py:30-61 | the new list spells AddDigits(d1, d2, 0), whose value is the sum of the two numbers (also the C addTwoNumbers, add_two_numbers.c:26-66) |
| ListAdder.AddRecursive | linked-list/add_two_numbers/add_two_numbers.py:64-93 | the new list spells AddDigits(d1, d2, carry) (also the C addTwoNumbers_Helper, add_two_numbers.c:78-104, which addTwoNumbers_Recursive at lines 74-76 starts with carry 0) |
| ListAdder.ReverseStep | linked-list/add_two_numbers/add_two_numbers.py:231-234 | one pass turns the current node around and moves both pointers on |
| ListAdder.ReversedList | linked-list/add_two_numbers/add_two_numbers.py:235 | when the walk ends, prev heads the list of the nodes, and their values, in reverse |
| ListAdder.ReverseList | linked-list/add_two_numbers/add_two_numbers.py:226-235 | relinks the same nodes in place into the reversed list of values (also the C reverse_list, add_two_numbers.c:112-124) |
| ListAdder.ReverseBoth | linked-list/add_two_numbers/add_two_numbers.py:253-254 | reversing two lists with no common node reverses both |
| ListAdder.NonReversedSum | linked-list/add_two_numbers/add_two_numbers.py:220-260 | read most significant digit first, the reverse-add-reverse result is the sum of the two numbers |
| AddTwoNumbersPy.ListToNumber | linked-list/add_two_numbers/add_two_numbers.py:106-114 | returns the number the list spells (list_to_number at lines 277-285 is the same loop) |
| AddTwoNumbersPy.ListToArray | linked-list/add_two_numbers/add_two_numbers.py:182-187 | returns the list's values in order |
| AddTwoNumbersPy.CreateList | linked-list/add_two_numbers/add_two_numbers.py:264-274 | a fresh list holding the given values in order; None for no values |
| AddTwoNumbersPy.NonEmpty | linked-list/add_two_numbers/add_two_numbers.py:190-192 | the fallback to a single 0 keeps the number and leaves a non-empty sequence unchanged |
| AddTwoNumbersPy.ArrayToList | linked-list/add_two_numbers/add_two_numbers.py:190-198 | a fresh list of the array's values; the single node 0 for an empty array |
| AddTwoNumbersPy.CopyList | linked-list/add_two_numbers/add_two_numbers.py:237-247 | a fresh list with the same values |
| AddTwoNumbersPy.IntDigitsSpec | linked-list/add_two_numbers/add_two_numbers.py:116-128 | IntDigits(num) is the digit sequence int_to_list builds: for num >= 0 it spells num, is not empty and has no most-significant 0 unless it is the single 0 |
| AddTwoNumbersPy.IntDigitsValue | linked-list/add_two_numbers/add_two_numbers.py:106-128 | int_to_list inverts list_to_int on such digit lists |
| AddTwoNumbersPy.PendingStep | linked-list/add_two_numbers/add_two_numbers.py:123-126 | writing num % 10 and going on with num // 10 leaves the written digits followed by the pending ones unchanged |
| AddTwoNumbersPy.ConvertDigit | linked-list/add_two_numbers/add_two_numbers.py:124-126 | one pass of int_to_list's loop links num % 10 and keeps the conversion's state |
| AddTwoNumbersPy.IntToList | linked-list/add_two_numbers/add_two_numbers.py:116-128 | a fresh list of the digits of num: the single 0 for 0, none for a negative num |
| AddTwoNumbersPy.IntegerConversion | linked-list/add_two_numbers/add_two_numbers.py:96-135 | a fresh list of the digits of Value(d1) + Value(d2) |
| AddTwoNumbersPy.SumCanonical | linked-list/add_two_numbers/add_two_numbers.py:131-135 | the sum of two digit lists without a most-significant 0 has none either |
| AddTwoNumbersPy.IntegerConversionAgrees | linked-list/add_two_numbers/add_two_numbers.py:96-135 | on such inputs the detour through integers writes exactly the digits the carry-propagating adders write |
| AddTwoNumbersPy.DigitGenerator | linked-list/add_two_numbers/add_two_numbers.py:144-156 | the generated digits are AddDigits(d1, d2, 0) |
| AddTwoNumbersPy.Generator | linked-list/add_two_numbers/add_two_numbers.py:138-169 | a fresh list of the sum's digits; the single node 0 when there are none |
| AddTwoNumbersPy.ZipLongest | linked-list/add_two_numbers/add_two_numbers.py:213 | zip_longest yields as many pairs as the longer sequence has elements |
| AddTwoNumbersPy.ZipLongestIndex | linked-list/add_two_numbers/add_two_numbers.py:213 | pair i holds the elements at i, with None past the end of either sequence |
| AddTwoNumbersPy.AddWithCarry | linked-list/add_two_numbers/add_two_numbers.py:204-211 | appends one digit d, from 0 to 9, and returns a carry c with 10 * c + d equal to the pair's sum plus the old carry |
| AddTwoNumbersPy.ReduceColumns | linked-list/add_two_numbers/add_two_numbers.py:213 | Reduce is functools.reduce; the fold, started at column k with that column's carry and digits, ends with the carry and digits of the last column |
| AddTwoNumbersPy.ReduceAdds | linked-list/add_two_numbers/add_two_numbers.py:213-215 | AddByReduce, the reduce over zip_longest, with the leftover carry appended, writes AddDigits(a, b, 0) |
| AddTwoNumbersPy.Functional | linked-list/add_two_numbers/add_two_numbers.py:172-217 | a fresh list of the sum's digits; the single node 0 when there are none |
| AddTwoNumbersPy.NonReversed | linked-list/add_two_numbers/add_two_numbers.py:220-260 | a fresh list of the digits of the sum, most significant first, computed on copies; ListAdder.NonReversedSum gives its number |
| AddTwoNumbersPy.BasicExample | linked-list/add_two_numbers/add_two_numbers.py:304 | the sum of [2,4,3] and [5,6,4] is [7,0,8] (342 + 465 = 807) |
| AddTwoNumbersPy.ZeroExample | linked-list/add_two_numbers/add_two_numbers.py:305 | the sum of [0] and [0] is [0] |
| AddTwoNumbersPy.CarryExample | linked-list/add_two_numbers/add_two_numbers.py:306 | the sum of [9,9] and [1] is [0,0,1] (99 + 1 = 100) |
| AddTwoNumbersPy.FollowUpExample | linked-list/add_two_numbers/add_two_numbers.py:338-342 | with digits most significant first, [1,2,3] and [5,6,4] give [6,8,7] (123 + 564 = 687) |
| AddTwoNumbersC.CreateNode | linked-list/add_two_numbers/add_two_numbers.c:161-166 | a fresh node holding val, linked to nothing |
| AddTwoNumbersC.CreateList | linked-list/add_two_numbers/add_two_numbers.c:169-181 | a fresh list of the first size values of the array; NULL for size 0; a negative size gives the one-node list of the first value |
| AddTwoNumbersC.CopyList | linked-list/add_two_numbers/add_two_numbers.c:127-135 | the recursive copy is a fresh list with the same values |
| AddTwoNumbersC.NonReversed | linked-list/add_two_numbers/add_two_numbers.c:137-153 | a fresh list of the digits of the sum, most significant first; the inputs are copied, not changed |
| AddTwoNumbersC.ListToNumber | linked-list/add_two_numbers/add_two_numbers.c:204-215 | as written, on lists of at most 18 nodes, returns the number the list spells without leaving the long long range |
| AddTwoNumbersC.ListToNumberOverflows | linked-list/add_two_numbers/add_two_numbers.c:208-212 | a 19-node list whose number fits a long long drives the multiplier past LLONG_MAX |
| AddTwoNumbersC.ListToNumberInRange | linked-list/add_two_numbers/add_two_numbers.c:204-215 | with the last multiplication skipped, every list of at most 19 nodes whose number fits a long long is read correctly |
| PairSum.FirstResultUnique | array/two_sum/two_sum.py:28-36 | two answers of the nested-loop kind (the lexicographically first pair, or [] when there is none) are equal |
| PairSum.CompletingPairUnique | array/two_sum/two_sum.py:53-63 | the hash-table answers single out one pair: the first completing position, with the latest (Python) or first (C) earlier occurrence of the complement |
| PairSum.HasPairCompletes | array/two_sum/two_sum.py:53-63 | a pair exists if and only if some position completes one |
| ValueIndexSort.Insert | array/two_sum/two_sum.py:85 | inserting adds exactly the element (as a multiset) |
| ValueIndexSort.InsertSorted | array/two_sum/two_sum.py:85 | inserting into a list sorted by value keeps it sorted |
| ValueIndexSort.InsertStable | array/two_sum/two_sum.py:85 | inserting an element with a later index keeps the order by (value, index) |
| ValueIndexSort.SortByValue | array/two_sum/two_sum.py:85 | the result is a permutation of the input, sorted by value (also qsort at two_sum.c:79) |
| ValueIndexSort.SortByValueStable | array/two_sum/two_sum.py:85 | equal values keep their original order, as Python's sort guarantees |
| ValueIndexSort.SortedIndexes | array/two_sum/two_sum.py:82-85 | the sorted tuples are sorted by value and list each (nums[i], i) exactly once |
| ValueIndexSort.SortedEntries | array/two_sum/two_sum.py:82-85 | any rearrangement of the tuples holds valid indices with their values and every index |
| ValueIndexSort.PairPositions | array/two_sum/two_sum.py:87-101 | a pair of nums appears as two distinct positions of the sorted tuples with the same sum |
| TwoSumPy.BruteForce | array/two_sum/two_sum.py:28-36 | the lexicographically first pair, or [] exactly when there is none |
| TwoSumPy.HashTable | array/two_sum/two_sum.py:53-63 | a pair, or [] exactly when there is none. The pair ends at the first position that completes one, and starts at the latest earlier occurrence of the complement |
| TwoSumPy.TwoPointers | array/two_sum/two_sum.py:82-101 | a pair of indices in ascending order, or [] exactly when there is none |
| TwoSumPy.GeneratedFirst | array/two_sum/two_sum.py:114-116 | Generated is the sequence the generator expression yields from a given (i, j) on; the generator, resumed past every earlier pair, yields the lexicographically first pair |
| TwoSumPy.Pythonic | array/two_sum/two_sum.py:114-116 | next over the generator gives the lexicographically first pair, or [] exactly when there is none |
| TwoSumPy.PythonicIsBruteForce | array/two_sum/two_sum.py:114-116 | the one-liner and the nested loops give the same answer |
| TwoSumPy.Examples | array/two_sum/two_sum.py:261-280 | the answers for the file's own inputs: [0, 1], [1, 2], [0, 1], and [] for an empty list |
| TwoSumC.BruteForce | array/two_sum/two_sum.c:45-60 | returnSize is 2; None exactly when there is no pair, otherwise the lexicographically first pair |
| TwoSumC.Compare | array/two_sum/two_sum.c:139-143 | negative, zero or positive exactly as the first value is smaller, equal or larger |
| TwoSumC.QSort | array/two_sum/two_sum.c:79 | the array becomes SortByValue of its old contents |
| TwoSumC.BinarySearch | array/two_sum/two_sum.c:146-162 | a found index belongs to an entry in the range holding the target and a different index. When the search fails, every such entry lies where the search had already passed it |
| TwoSumC.NoPartnerNoPair | array/two_sum/two_sum.c:85-105 | if no sorted entry finds a partner after it, nums has no pair |
| TwoSumC.SortedValueIndex | array/two_sum/two_sum.c:70-79 | a fresh array holding the (value, index) entries of nums, sorted by value |
| TwoSumC.SearchComplement | array/two_sum/two_sum.c:86-88 | a found index completes a pair with entry i. When nothing is found, every partner of entry i sits before it |
| TwoSumC.SearchPairs | array/two_sum/two_sum.c:85-102 | on any sorted arrangement of the entries: a pair in ascending order, or None exactly when there is none |
| TwoSumC.Optimized | array/two_sum/two_sum.c:69-106 | returnSize is 2; None exactly when there is no pair, otherwise a pair in ascending order |
| TwoSumC.Visit | array/two_sum/two_sum.c:121-131 | a found index starts a pair ending at i, at the first occurrence of the complement. Otherwise no pair ends at i, and the table gains nums[i] |
| TwoSumC.HashTable | array/two_sum/two_sum.c:115-136 | returnSize is 2; None exactly when there is no pair. Otherwise the pair ends at the first completing position and starts at the first occurrence of the complement |
| LinearProbing.Hash | array/two_sum/two_sum.c:165-167 | a slot from 0 to HASH_SIZE - 1 that is the key or its negation modulo HASH_SIZE |
| LinearProbing.Dist | array/two_sum/two_sum.c:173-174 | the number of probe steps from start to a slot, which that many steps reach |
| LinearProbing.DistProbe | array/two_sum/two_sum.c:173-174 | the step count of the slot reached after d steps is d |
| LinearProbing.ProbeNext | array/two_sum/two_sum.c:174 | (index + 1) % HASH_SIZE is the next slot of the probe sequence |
| LinearProbing.HashInsert | array/two_sum/two_sum.c:170-180 | writes (key, value, 1) into the first empty slot on the key's probe sequence; every slot passed was occupied and no other slot changes |
| LinearProbing.HashSearch | array/two_sum/two_sum.c:183-194 | returns the value of the first entry with the key on its probe sequence before an empty slot, and -1 if there is none |
| LinearProbing.EmptyHolds | array/two_sum/two_sum.c:116 | the zeroed table holds no entry |
| LinearProbing.InsertClosed | array/two_sum/two_sum.c:170-180 | filling the slot hashInsert chooses keeps every entry reachable from its hash through occupied slots |
| LinearProbing.InsertHolds | array/two_sum/two_sum.c:131 | inserting nums[i] with value i keeps the table holding exactly the positions inserted, with equal keys in insertion order |
| LinearProbing.FreeSlot | array/two_sum/two_sum.c:116-131 | with fewer positions inserted than slots, an empty slot remains, so both probe loops end |
| LinearProbing.FindFirst | array/two_sum/two_sum.c:183-194 | on the table built so far, the search finds the first position holding the key, and -1 exactly when no inserted position holds it |

## Left out

- Memory management is not modelled: `malloc` never fails, and `free`, `free_list` and `free(dummy_head)` are left out. Nodes that are no longer reachable are simply not mentioned.
- Printing, tests, benchmarks, timing and `main` are left out: `__str__`, `print_list`, `printTestResult`, `print_array`, `benchmark*`, `test_*`, `demonstrate_*`, `compare_with_c`, `runComprehensiveTests`. The Python Two Sum inputs appear as `TwoSumPy.Examples`, and the first three Add Two Numbers test cases and the follow-up's as `AddTwoNumbersPy.BasicExample`, `ZeroExample`, `CarryExample` and `FollowUpExample`.
- The demonstration helpers `FlexibleNode`, `list_to_array_oneliner` and `two_sum_flexible` are left out. They sit in demonstration functions, not in the solutions.
- The memo dictionary of `lengthOfLongestSubstring_recursive_memo` is left out: it caches values of the helper and does not change them.
- A C result array that stays uninitialised when no pair exists is modelled as `None`; `returnSize` is 2 in every case, as in the code.
- TwoSumC.BruteForce: requires every sum of two values to fit an `int`, because signed overflow is undefined in C.
- TwoSumC.Optimized: requires every difference of two values, and every complement, to fit an `int`, for the same reason.
- TwoSumC.Compare: requires the difference of the two values to fit an `int`.
- TwoSumC.SearchPairs: requires every complement to fit an `int`.
- TwoSumC.HashTable: requires that no value and no complement be `INT_MIN`, since `abs(INT_MIN)` overflows. It also requires at most HASH_SIZE (10007) numbers. With more, and no pair among the first HASH_SIZE, the table is full when number HASH_SIZE is looked up: `hashSearch` still returns if that complement is in the table, but otherwise it probes forever, and the function never returns. Lookups in a full table are not modelled.
- LinearProbing.HashInsert: requires an empty slot in the table, without which its probe loop never ends, and a key other than `INT_MIN`.
- LinearProbing.HashSearch: requires an empty slot in the table and a key other than `INT_MIN`. On a full table the C loop still returns when the key is present, but never ends when it is absent; the model does not cover a full table.
- TwoSumC.BinarySearch: requires that no entry in the range carry the index -1, which holds for every table of positions.
- TwoSumC.QSort: `qsort` may order equal values any way it likes; the model fixes one order, the stable `SortByValue`. `TwoSumC.SearchPairs` is proved for every sorted arrangement of the entries, so the result of `Optimized` (some pair, or none exactly when there is none) does not depend on that choice.
- TwoSumPy.TwoPointers: the docstring says the values are returned, but the code returns the two original indices in ascending order. The model follows the code.
- LongestSubstringC.Lowercase: requires a string of lowercase letters, the input the function is written for. On other bytes the code skips the character but keeps it inside the window, and that behaviour is not modelled.
- LongestSubstringC.FindLongestSubstringWithDetails: requires the string to contain no NUL byte, as every C string measured by `strlen` does. String lengths beyond `INT_MAX` are not modelled.
- AddTwoNumbersC.ListToNumber: requires at most 18 nodes; see Findings. The list must also hold digits 0 to 9.
- ListAdder.AddIterative: the lists must hold digits 0 to 9, as the problem states. With negative values, Python's floor division can keep a carry of -1 forever.
- ListAdder.AddRecursive: the lists must hold digits 0 to 9, for the same reason.
- AddTwoNumbersPy.DigitGenerator: the lists must hold digits 0 to 9, for the same reason.
- AddTwoNumbersPy.IntegerConversion: the lists must hold digits 0 to 9. `list_to_int` and `int_to_list` are defined on any integers, and a negative sum gives no list, but lists of other values are not modelled.
- AddTwoNumbersPy.Generator: the lists must hold digits 0 to 9, as the problem states.
- AddTwoNumbersPy.Functional: the lists must hold digits 0 to 9, as the problem states.
- AddTwoNumbersPy.NonReversed: the lists must hold digits 0 to 9, as the problem states.
- AddTwoNumbersC.NonReversed: the lists must hold digits 0 to 9, as the problem states.
- AddTwoNumbersC.ListToNumberInRange: the list must hold digits 0 to 9; the value of a list of other `int`s is not modelled.
- ListAdder.AddRecursive: the depth of the recursion is not modelled. Python's recursion limit (the `RecursionError` the benchmark catches) and C's stack size bound the list length in the source, but not in the model.
- AddTwoNumbersC.CopyList: the depth of the recursion is not modelled; C's stack bounds the list length.
- LongestSubstringC.RecursiveHelper: the depth of the recursion, one level per start position, is not modelled.
- LongestSubstringC.BruteForce: the length is kept in an `int` (`int n = strlen(s)`); strings longer than `INT_MAX` are not modelled.
- LongestSubstringC.SlidingWindow: strings longer than `INT_MAX` are not modelled, for the same reason.
- LongestSubstringC.Optimized: strings longer than `INT_MAX` are not modelled, for the same reason.
- LongestSubstringC.Lowercase: strings longer than `INT_MAX` are not modelled, for the same reason.
- LongestSubstringC.Recursive: strings longer than `INT_MAX` are not modelled, for the same reason.
- Python generators (`digit_generator`, the substring-length generator, the pair generator) are modelled by the sequence they yield, not by lazy evaluation. The deque is modelled by a sequence.

## Findings

| source | as written | input that shows it | evidently intended | confidence | as-written member | corrected member |
|---|---|---|---|---|---|---|
| linked-list/add_two_numbers/add_two_numbers.c:208-212 | the multiplier is multiplied by 10 after every node, including the last | a list of 19 nodes, eighteen 0s and then a 1, holding 10^18, which fits a long long; the last step computes 10^19 > LLONG_MAX, which is undefined behaviour | every list whose number fits a long long is read; the multiplier grows only when another node follows | not executed; the overflow is proved | AddTwoNumbersC.ListToNumberOverflows | AddTwoNumbersC.ListToNumberInRange |
| string/longest_substring_without_repeating_characters/longest_substring_without_repeating_characters.py:238 | the include branch adds 1 to a helper call that may itself restart with an empty set, so it adds characters before a repeat to a later, separate run | "abbc": "ab" is counted, the second "b" forces a restart, and "c" is added, giving 3 where the longest distinct window is 2 long | the included character extends the current run only, and the run ends at the first repeat | not executed; the value 3 is proved | LongestSubstringPy.RecursiveMemoOvercounts | LongestSubstringPy.RecursiveMemoCorrected |
