# Models of the C utility library and the algorithms

This project models the most intricate parts of a C repository that mixes a utility library in the
style of FFmpeg and GNU code (`func_libs`) with textbook algorithms (`algorithms`, `codec_progs`),
and proves what these parts promise. Run `dafny verify dfyconfig.toml`.

| file | models |
|---|---|
| `BufferPool.dfy` | the lock-free pool of reference-counted buffers: any number of threads, one shared access a step |
| `Getopt.dfy` | the argument permuter with its static variables, against a one-pass scan |
| `Integer128.dfy` | 128-bit integers in eight 16-bit limbs |
| `Glob.dfy` | the wildcard matcher, against a declarative match relation |
| `Fifo.dfy` | the ring buffer with wrapping 32-bit indexes, against a byte queue |
| `Md5.dfy` | the streaming hash: rounds, buffering of blocks, padding |
| `PrintBuffer.dfy` | the growing and truncating text buffer |
| `Dictionary.dfy` | the string dictionary and its text form |
| `MagicSquare.dfy` | magic squares of odd, singly even and doubly even order |
| `CountingSorts.dfy`, `ComparisonSorts.dfy`, `InPlaceMerge.dfy` | radix sort, rank sort, quicksort, heap sort, merge sorts by rotation |
| `Josephus.dfy`, `Unranking.dfy`, `StringMatch.dfy`, `CommonSequences.dfy`, `Permutations.dfy`, `ZigZag.dfy` | the elimination game, the K-th string, string matching, longest common subsequence and substring, enumeration of permutations, the zigzag scan |
| `Arithmetic.dfy`, `Facts.dfy`, `Wrappers.dfy` | shared facts about quotients, permutations and sums, and the optional value |

The buffer pool is a state machine: `Step` lets any thread make one access to a shared word, and the
results hold in every state that a run can reach. The code that changes arrays and structures step
by step is modelled by methods with loops and by classes; a method that continues work in progress
takes what has happened so far as a ghost parameter. Where the source branches on the success of an
allocation, a parameter decides it.

The code does not always keep what the source promises or leads callers to expect. The model follows
the code; the member named says exactly when the code does what is expected:

- A get in flight while the pool is uninited, about which the source is silent, can lose the pool
  under its feet if and only if the pool count does not cover it yet (`UninitDuringGet`; such a
  state is `FatalUninit`).
- `fx_log2_i` returns -1 for zero, not 0 as its comment says; the division relies on that
  (`Integer128.Log2`).
- `fx_mod_i` recurses without end for the dividend -2^127, which is its own negation, and for no
  other (`RecursionEnds`).
- A bracket without a closing one is not always the ordinary character that a comment promises
  (`UnclosedBracket`).
- Scanning rearranged arguments again can differ (`RearrangedParsesTheSame`).
- The list version of the elimination game plays with max(m, 2) (`ListAgrees`).
- `find_kth_str` and `find_kth_str2` differ for K <= 0, unless there are no zeros (`CompareVersions`).
- `fx_md5_final` stores the bit count backwards (`PaddingConforms`).
- `fx_bprint_is_complete` can be wrong for texts of nearly UINT_MAX characters (`CompleteMeansAll`,
  `LostCharacter`).
- `fx_dict_set` loses an entry when it cannot join two values (`Dictionary.AVDictionary.Set`).
- In `KMPstrMatching` a comment swallows the call that builds the prefix table. As it is written it
  does without the table, and is right, if and only if the target is a stretch without the first
  character of the pattern, followed by a proper prefix of the pattern (`KmpWithoutTable`); the
  other results are about the matcher with its table.

## Model

| member | source | states |
|---|---|---|
| `BufferPool.OnePlace` | func_libs/fx_buffer.h:586-619 | in every reachable state of every interleaving, each live entry is on the shared list, or held by exactly one thread, or with the users, and never in two of these places |
| `BufferPool.ListsAreAcyclic` | func_libs/fx_buffer.h:586-619 | in every reachable state the shared list, and whatever a thread has in its hands, ends in null and passes no entry twice |
| `BufferPool.NoneLost` | func_libs/fx_buffer.h:600-724 | every entry ever created is live or has been freed, not both, and none is freed twice |
| `BufferPool.NoUseAfterFree` | func_libs/fx_buffer.h:539-724 | no thread, the freeing one included, follows a link of freed memory; while one thread frees the pool all others are idle, and nobody runs afterwards |
| `BufferPool.HandedOutIsLive` | func_libs/fx_buffer.h:655-724 | a buffer in the hands of the users is live, is referenced, and has not been freed |
| `BufferPool.FreeingComesLast` | func_libs/fx_buffer.h:539-574 | the first entry is freed only after the handle and all handed-out buffers are back |
| `BufferPool.CountCovers` | func_libs/fx_buffer.h:563-724 | the pool count is exactly the handle, the handed-out buffers and the releases and creations under way; the pool is freed at most once and then nothing of it is left |
| `BufferPool.FreedExactlyOnce` | func_libs/fx_buffer.h:539-574 | when the handle and all buffers are back and all calls have returned, buffer_pool_free has run exactly once and has freed every entry exactly once |
| `BufferPool.UninitDuringGet` | func_libs/fx_buffer.h:555-574 | from any reachable state, uninit can be followed by a run at whose end the pool is freed and some call is still using it if and only if a get is in flight that the count does not cover |
| `BufferPool.FatalUninit` | func_libs/fx_buffer.h:563-597 | a reachable state in which uninit is fatal: another thread has just called get |
| `BufferPool.Drain` | func_libs/fx_buffer.h:539-574 | once the handle is given back, the other threads can always bring all buffers home and free the pool, however many there are and wherever the uncovered gets stand, which stay where they are |
| `BufferPool.Finish` | func_libs/fx_buffer.h:600-639 | a thread that returns a buffer or frees the pool comes to its end when it runs alone |
| `BufferPool.GetYields` | func_libs/fx_buffer.h:677-724 | a get that runs while all others are idle: with memory it hands out exactly one buffer with one reference and counts it, the first of the list if there is one, whose rest stays on the list, and a new one otherwise; without memory it leaves the pool as it was |
| `BufferPool.ReleaseYields` | func_libs/fx_buffer.h:600-640 | an unref that runs while all others are idle: the last reference puts the buffer before the list, which keeps its order, and lowers the count; the last count of all frees the buffer and then the list, in that order, and the pool |
| `BufferPool.CopyDropped` | func_libs/fx_buffer.h:275-312 | a copied reference that is dropped again leaves the pool as it was, and the buffer with its users |
| `BufferPool.SoloReturns` | func_libs/fx_buffer.h:539-724 | any call, wherever it stands, ends when it alone runs and all others are idle, with or without memory |
| `BufferPool.NoOverallocation` | func_libs/fx_buffer.h:684-688 | in every run the number of buffers ever created stays below the highest pool count so far plus the number of threads, which is what the comparison of the counts is for |
| `BufferPool.NoSpin` | func_libs/fx_buffer.h:684-688 | as a get that finds the list empty has the count above the number of buffers then, and does not wait |
| `BufferPool.StepKeepsInv` | func_libs/fx_buffer.h:586-724 | every step of every thread, and every call, keeps the invariant that places, links and counts fit the program counters |
| `BufferPool.BehaviourInv` | func_libs/fx_buffer.h:586-724 | the invariant holds after every run of any number of threads |
| `BufferPool.TakeTrades` | func_libs/fx_buffer.h:586-598 | the compare-and-swap of get_pool that succeeds moves the whole shared list, and nothing else, to the thread |
| `BufferPool.InstallTrades` | func_libs/fx_buffer.h:612-612 | the compare-and-swap of add_to_pool that succeeds puts exactly the thread's chain on the empty shared list |
| `BufferPool.AddToPoolTrades` | func_libs/fx_buffer.h:600-619 | walking, retaking the list and linking it behind the own chain change no place but the thread's own |
| `BufferPool.ReuseBufferTrades` | func_libs/fx_buffer.h:694-703 | splitting a taken list, keeping its first entry and handing it out or putting it back keeps all other entries where they are |
| `BufferPool.PoolFreeTrades` | func_libs/fx_buffer.h:539-554 | each round of buffer_pool_free removes exactly the head of the list, which is live |
| `BufferPool.RunKeepsCounts` | func_libs/fx_buffer.h:622-724 | every step of a running thread keeps the count balanced and the record of freed entries free of repetitions |
| `BufferPool.CallKeepsCounts` | func_libs/fx_buffer.h:563-574 | get, ref, unref and uninit keep the count balanced |
| `Getopt.Scanner.Exchange` | func_libs/fx_getopt.h:137-191 | swaps the skipped block and the processed options behind it in place, whatever their lengths, and moves the block's bounds along |
| `Getopt.SwapBlocks` | func_libs/fx_getopt.h:144-185 | the loop over the shorter segment ends with the two adjacent blocks exchanged, each in its order |
| `Getopt.SwapRuns` | func_libs/fx_getopt.h:158-164 | swaps two runs of equal length element by element and nothing else |
| `Getopt.Scanner.BringTogether` | func_libs/fx_getopt.h:319-327 | the options processed since come before the skipped block, both in their order |
| `Getopt.Scanner.SkipRun` | func_libs/fx_getopt.h:329-334 | skips exactly the non-options ahead, which the scan reports as non-options |
| `Getopt.Scanner.EndOfOptions` | func_libs/fx_getopt.h:337-353 | the argument -- joins the options and everything behind it the non-options |
| `Getopt.Scanner.Advance` | func_libs/fx_getopt.h:308-383 | moves to the next option element, or stops with the arguments rearranged, without changing what the whole scan finds |
| `Getopt.Scanner.DecodeCharacter` | func_libs/fx_getopt.h:537-733 | one option character: the returned code, optarg, optopt, and how far optind and nextchar move, for unknown options and all three kinds of arguments |
| `Getopt.Scanner.Decode` | func_libs/fx_getopt.h:537-733 | what is returned is the first event of the scan, and the rest of the scan is what is left to be returned |
| `Getopt.Scanner.Begin` | func_libs/fx_getopt.h:282-383 | the start of a call, also the first one, changes nothing that the scan will find |
| `Getopt.Scanner.Next` | func_libs/fx_getopt.h:282-734 | a call in any state returns the first event of the one-pass scan over what is left, or -1 with the array rearranged: options and their arguments first, then the non-options from optind on |
| `Getopt.CallUntilDone` | func_libs/fx_getopt.h:282-740 | the whole run of calls returns exactly the events of the scan, in order, and ends with argv rearranged |
| `Getopt.ParseAll` | func_libs/fx_getopt.h:736-740 | for every argument array and plain option string the run of calls yields the options of one left-to-right scan of the original array, and leaves argv as program name, options, non-options, with optind between them |
| `Getopt.ScanFirst` | func_libs/fx_getopt.h:537-733 | the scan is its first event, decided by the first character alone, and the scan of what follows |
| `Getopt.ScanSplits` | func_libs/fx_getopt.h:282-383 | options and non-options of the scan are complementary selections of the arguments, each in the original order |
| `Getopt.ScanPermutes` | func_libs/fx_getopt.h:282-383 | the rearranged arguments are a permutation of the original ones |
| `Getopt.RearrangedParsesTheSame` | func_libs/fx_getopt.h:282-383 | scanning the rearranged arguments again gives the same result if and only if no last option lacked its argument or there are no non-options |
| `Getopt.ArgumentSupplied` | func_libs/fx_getopt.h:710-724 | where an option lacked its argument, the second scan gives it the first non-option |
| `Getopt.StringDeclares` | func_libs/fx_getopt.h:541-561 | an option string written from any declarations, one letter with no colon, one or two each, gives every letter its declared kind and declares no other character |
| `Getopt.WordsAreUnderstood` | func_libs/fx_getopt.h:537-733 | a command line written from any operands, groups of flags, and options with their arguments attached, separate or left away, ending plainly, with -- or in an option that lacks its argument, is read as exactly these events and operands |
| `Integer128.Add` | func_libs/fx_integer.h:45-53 | addition modulo 2^128 for all operands |
| `Integer128.Sub` | func_libs/fx_integer.h:54-62 | subtraction modulo 2^128, with the borrow kept by the arithmetic shift |
| `Integer128.Log2` | func_libs/fx_integer.h:69-77 | the index of the highest one bit; -1 for zero, where the comment of the source says 0 |
| `Integer128.UsedLimbs` | func_libs/fx_integer.h:81-82 | the limbs beyond the count derived from the logarithm are zero |
| `Integer128.Mul` | func_libs/fx_integer.h:78-97 | multiplication modulo 2^128, although only the used limbs are visited |
| `Integer128.MulRow` | func_libs/fx_integer.h:86-94 | one row adds its limb's product with the other operand at its position, modulo 2^128 |
| `Integer128.CarryFits` | func_libs/fx_integer.h:86-92 | the carry accumulator stays below 2^32 |
| `Integer128.Cmp` | func_libs/fx_integer.h:102-112 | the sign of the comparison of the two numbers as signed 128-bit integers |
| `Integer128.LimbDecides` | func_libs/fx_integer.h:107-110 | below equal limbs the first differing limb decides the signed order |
| `Integer128.SignedTop` | func_libs/fx_integer.h:104-105 | the number is its top limb as a signed 16-bit number and the unsigned rest, and that limb has the sign |
| `Integer128.Shr` | func_libs/fx_integer.h:120-132 | the shift by any int, to the right or, when negative, to the left, modulo 2^128; the high bits filled are zeros |
| `Integer128.ShiftInTwoSteps` | func_libs/fx_integer.h:125-129 | a shift by s is a shift by s / 16 limbs and one by s mod 16 bits, also for negative s |
| `Integer128.Aligned` | func_libs/fx_integer.h:140-154 | the difference of the logarithms lines the divisor up so that the dividend is below twice it, without overflow |
| `Integer128.Round` | func_libs/fx_integer.h:158-165 | a round of the division loop: doubles the quotient, subtracts when it can, and halves the divisor |
| `Integer128.DivideRound` | func_libs/fx_integer.h:158-165 | each round keeps dividend = quotient * divisor + remainder with the remainder below the shifted divisor |
| `Integer128.DivideLoop` | func_libs/fx_integer.h:153-166 | for non-negative dividend and positive divisor the loop ends with the quotient and the remainder |
| `Integer128.Mod` | func_libs/fx_integer.h:139-167 | a = quot * b + rem with rem between -b and b, zero or with the sign of a, for every b > 0 and every a but -2^127 |
| `Integer128.RecursionEnds` | func_libs/fx_integer.h:144-148 | the recursion on negative dividends ends, after one call at the most, if and only if the dividend is not -2^127, for which it does not end at any depth |
| `Integer128.Negate` | func_libs/fx_integer.h:145-147 | the subtraction from zero negates every number but -2^127, which it leaves as it is |
| `Integer128.Div` | func_libs/fx_integer.h:172-176 | the quotient truncated toward zero |
| `Integer128.FromInt64` | func_libs/fx_integer.h:181-190 | every int64 is represented with its sign |
| `Integer128.ToInt64` | func_libs/fx_integer.h:197-206 | the number modulo 2^64, as a signed 64-bit number |
| `Integer128.FitsInt64` | func_libs/fx_integer.h:197-206 | numbers that fit into an int64 come back unchanged |
| `Glob.StrMatch` | func_libs/fx_glob.h:1249-1260 | returns 0 exactly when the whole string is in the language of the pattern, for all strings and all patterns of the covered kinds, closed or not |
| `Glob.GMatch` | func_libs/fx_glob.h:1095-1247 | from any position on, the pointer loop decides membership of the rest of the string in the language of the rest of the pattern |
| `Glob.MatchStar` | func_libs/fx_glob.h:1146-1211 | the collapse of consecutive stars and question marks decides the same as the star followed by them |
| `Glob.TryFrom` | func_libs/fx_glob.h:1186-1211 | the loop over start positions finds a match if there is one, although the first-character test skips positions |
| `Glob.FirstCharacter` | func_libs/fx_glob.h:1189-1197 | what the skip relies on: after a literal or an escape, a match begins with that character, and it is never empty |
| `Glob.StarAny` | func_libs/fx_glob.h:1159-1177 | a star before a question mark consumes one character and goes on as a star |
| `Glob.StarStar` | func_libs/fx_glob.h:1159-1177 | two stars match what one matches |
| `Glob.BrackMatch` | func_libs/fx_glob.h:883-1092 | a bracket list matches exactly the characters of its items and ranges, or their complement, and the pattern goes on behind the list |
| `Glob.ReadItem` | func_libs/fx_glob.h:905-1057 | reading one item of a list: a character, an escape or a range, or the end of the pattern in the middle of it |
| `Glob.SkipList` | func_libs/fx_glob.h:1068-1091 | after a match the rest of the list is skipped up to its closing bracket |
| `Glob.UnclosedBracket` | func_libs/fx_glob.h:1008-1014 | an unclosed bracket acts as the ordinary character that the comment promises if and only if its list ends plainly, or in a range with a bracket among the items before, or the rest of the pattern matches nothing anyway |
| `Glob.PlainInList` | func_libs/fx_glob.h:1068-1091 | behind an unclosed bracket the pattern has no bracket list: what opens inside it is not closed either |
| `Glob.DanglingRange` | func_libs/fx_glob.h:1026-1032 | an unclosed list for which it fails: the pattern [a- does not match itself |
| `Glob.EscapedMatchesItself` | func_libs/fx_glob.h:1130-1144 | a string with a backslash before every character matches itself and nothing else |
| `Glob.PatternMeans` | func_libs/fx_glob.h:1095-1247 | a pattern written from plain and quoted characters, ?, *, and lists of characters, quoted characters and ranges, negated or not, matches exactly the strings that its pieces stand for |
| `Glob.ListOfCharacters` | func_libs/fx_glob.h:894-900 | a list accepts exactly the strings of one of its characters, and behind ! and ^ alike exactly those of one other character |
| `Glob.ListOfRange` | func_libs/fx_glob.h:1016-1064 | a range accepts exactly the characters between its ends |
| `MagicSquare.Odd` | algorithms/magic_square.c:82-95 | the staircase loop fills each cell of the region with the number given by a closed form of its coordinates, for every odd order and start index, and leaves the cells outside alone |
| `MagicSquare.OddFills` | algorithms/magic_square.c:82-95 | whatever the start index, the m * m consecutive numbers occur once each |
| `MagicSquare.OddTimeInjective` | algorithms/magic_square.c:82-95 | the staircase never comes to the same cell twice |
| `MagicSquare.OddIsMagic` | algorithms/magic_square.c:82-95 | the numbers fill the square, and all rows, columns and both diagonals have the same sum if and only if the start index is a multiple of the order |
| `MagicSquare.MiddleColumn` | algorithms/magic_square.c:82-95 | for any start index, the middle column falls short of that sum by the order times the rest of the index |
| `MagicSquare.ExchangeRow` | algorithms/magic_square.c:159-177 | steps two and three exchange exactly the marked cells of a row of the upper half with those of the lower half |
| `MagicSquare.SingleEven` | algorithms/magic_square.c:141-179 | the four staircases and the exchanges give every cell its number in closed form |
| `MagicSquare.SingleFills` | algorithms/magic_square.c:141-179 | each of 1, ..., n * n occurs once |
| `MagicSquare.SingleIsMagic` | algorithms/magic_square.c:141-179 | for n = 4k + 2 all rows, columns and both diagonals add up to n (n * n + 1) / 2 |
| `MagicSquare.FourXFour` | algorithms/magic_square.c:207-215 | complements exactly the two diagonals of the block |
| `MagicSquare.DoubleEven` | algorithms/magic_square.c:253-277 | the two loops give every cell its number or the complement of it |
| `MagicSquare.DoubleIsMagic` | algorithms/magic_square.c:253-277 | for n = 4k the numbers 1, ..., n * n occur once each and all lines add up to n (n * n + 1) / 2 |
| `MagicSquare.Fill` | algorithms/magic_square.c:24-48 | for every order from 3 on, the choice made in main leaves a magic square in the array |
| `CountingSorts.MaxBits` | algorithms/sort_all_methods.cc:564-577 | the number of decimal digits of the greatest element, and no more |
| `CountingSorts.CountingPass` | algorithms/sort_all_methods.cc:585-599 | one pass is a stable sort by the digit |
| `CountingSorts.PassOrders` | algorithms/sort_all_methods.cc:584-601 | a stable sort by digit b of an array ordered by its low digits orders it by one digit more |
| `CountingSorts.SortPass` | algorithms/sort_all_methods.cc:584-601 | after pass b the array is a permutation ordered by its low b digits |
| `CountingSorts.RadixSort` | algorithms/sort_all_methods.cc:578-604 | every array of non-negative integers ends sorted, as a permutation of the input |
| `CountingSorts.Rank` | algorithms/sort_all_methods.cc:610-623 | the comparisons in pairs compute for each element its place in the stable order |
| `CountingSorts.PlacesPermute` | algorithms/sort_all_methods.cc:610-623 | the places are a bijection on 0, ..., n - 1 |
| `CountingSorts.PlaceOrder` | algorithms/sort_all_methods.cc:610-623 | places are ordered as the elements are, and by index where these are equal |
| `CountingSorts.SwapFixes` | algorithms/sort_all_methods.cc:642-647 | an exchange along a cycle puts at least one element to its place and keeps the ranks a permutation |
| `CountingSorts.FollowCycle` | algorithms/sort_all_methods.cc:642-647 | the inner loop ends with index i in place and those before it untouched, without losing track of any element's target |
| `CountingSorts.RankSort` | algorithms/sort_all_methods.cc:636-650 | the array ends as the stable sort of the input, so sorted and a permutation of it |
| `ComparisonSorts.Partition` | algorithms/sort_all_methods.cc:293-306 | nothing up to j is above the pivot, nothing from i on below it, only the pivot between; both sides are smaller than the part; the elements are rearranged within the part only |
| `ComparisonSorts.SidesMeet` | algorithms/sort_all_methods.cc:307-310 | sorting the two sides sorts the whole part |
| `ComparisonSorts.QuickSort` | algorithms/sort_all_methods.cc:292-311 | the part between l and r ends sorted and rearranged, the rest of the array as it was |
| `ComparisonSorts.SortQuickly` | algorithms/sort_all_methods.cc:312-314 | every array with an element ends sorted, as a permutation of the input |
| `ComparisonSorts.SiftStep` | algorithms/sort_all_methods.cc:233-240 | a level of adjust moves the only possible defect of the heap one level down |
| `ComparisonSorts.Adjust` | algorithms/sort_all_methods.cc:229-241 | a heap from m + 1 on becomes a heap from m on |
| `ComparisonSorts.HeapMax` | algorithms/sort_all_methods.cc:242-251 | the first element of a heap is a greatest one |
| `ComparisonSorts.TakeMax` | algorithms/sort_all_methods.cc:248-248 | exchanging first and last keeps the tail sorted and leaves at most the root out of order |
| `ComparisonSorts.HeapSort` | algorithms/sort_all_methods.cc:242-251 | every array ends sorted, as a permutation of the input |
| `Josephus.Simulate` | algorithms/joseph_ring.cc:91-129 | the array of marks and counters leaves the person that the rules of the game leave, and removes the others in the order of the rules; the loop terminates |
| `Josephus.SurvivorPlace` | algorithms/joseph_ring.cc:157-163 | the place of the survivor follows the recurrence J(n) = (J(n - 1) + m) mod n, whoever stands in the circle |
| `Josephus.ClosedForm` | algorithms/joseph_ring.cc:157-163 | f1 returns the survivor of the elimination game for all n >= 1 and m >= 1 |
| `Josephus.PlayList` | algorithms/joseph_ring.cc:51-84 | the circular list leaves the survivor of the game with max(m, 2) |
| `Josephus.CreateList` | algorithms/joseph_ring.cc:25-50 | the nodes are linked in a circle in their order |
| `Josephus.LinkedKick` | algorithms/joseph_ring.cc:77-80 | unlinking the next node takes exactly that person out of the circle |
| `Josephus.ListAgrees` | algorithms/joseph_ring.cc:75-82 | list and rules agree if and only if m >= 2 or, with m = 1, n + 1 is a power of two |
| `Unranking.BuildTable` | algorithms/find_kth_01str.cc:68-78 | the table of counts |
| `Unranking.CountsWords` | algorithms/find_kth_01str.cc:68-78 | an entry is the number of strings of that many zeros and ones |
| `Unranking.WordsAreAll` | algorithms/find_kth_01str.cc:27-31 | the set that is counted is that of all strings with the given numbers of zeros and ones |
| `Unranking.KthWord` | algorithms/find_kth_01str.cc:109-122 | for 1 <= K <= dp[N][M], xstr returns a string of N zeros and M ones before which exactly K - 1 such strings come |
| `Unranking.RankOfWord` | algorithms/find_kth_01str.cc:109-122 | every string of N zeros and M ones is found, at the number of strings before it plus one |
| `Unranking.Increasing` | algorithms/find_kth_01str.cc:109-122 | the strings come in strictly increasing dictionary order |
| `Unranking.FindKth` | algorithms/find_kth_01str.cc:67-108 | the loop returns the same string as the recursion, or Impossible when K is too large; for K <= 0 it returns only the ones |
| `Unranking.FindKth2` | algorithms/find_kth_01str.cc:123-140 | for 1 <= K <= dp[N][M] the result is a string of N zeros and M ones with exactly K - 1 such strings before it; Impossible when K is too large; for K <= 0 the first string |
| `Unranking.VersionsDiffer` | algorithms/find_kth_01str.cc:88-107 | for K <= 0 loop and recursion agree if and only if there are no zeros |
| `Unranking.CompareVersions` | algorithms/find_kth_01str.cc:67-140 | both programs give the string with K - 1 strings before it, or Impossible; for K <= 0 one gives only the ones and the other the first string, so they give the same answer if and only if K >= 1 or there are no zeros |
| `StringMatch.Naive` | algorithms/str_match.cc:10-25 | reports all shifts with which the pattern occurs, each once, in ascending order |
| `StringMatch.PrefixFunction` | algorithms/str_match.cc:29-44 | entry n is the length of the longest proper border of the first n characters of the pattern |
| `StringMatch.Advance` | algorithms/str_match.cc:38-42 | falling back from border to border ends at the longest match that the next character continues |
| `StringMatch.FallBack` | algorithms/str_match.cc:60-61 | the longest border skips no shorter match |
| `StringMatch.Kmp` | algorithms/str_match.cc:46-70 | with the prefix table, reports all shifts with which the pattern occurs, each once, in ascending order |
| `StringMatch.KmpWithoutTable` | algorithms/str_match.cc:46-70 | as it is written, without a table, the matcher reads no entry if and only if the target is a stretch without the first character of the pattern and then a proper prefix of the pattern; it reports nothing then, and there is nothing to report |
| `StringMatch.Compare` | algorithms/str_match.cc:10-70 | both matchers report the same list, for every target and non-empty pattern |
| `StringMatch.SameMembers` | algorithms/str_match.cc:10-70 | an ascending list of all shifts is unique |
| `CommonSequences.FillTables` | algorithms/least_common_seq.cc:8-28 | the tables hold the lengths of the recurrence and the directions they come from |
| `CommonSequences.NoneLonger` | algorithms/least_common_seq.cc:8-28 | no common subsequence is longer than the computed length |
| `CommonSequences.Print` | algorithms/least_common_seq.cc:29-40 | following the directions outputs a common subsequence of exactly the length in the table |
| `CommonSequences.FindSubsequence` | algorithms/least_common_seq.cc:42-60 | the printed string is a common subsequence, and none is longer |
| `CommonSequences.FindSubstring` | algorithms/least_common_seq.cc:63-89 | the table version prints the longest common substring that ends first in A |
| `CommonSequences.FindSubstring2` | algorithms/least_common_seq.cc:91-113 | so does the version with one row that is filled from right to left |
| `CommonSequences.SuffixIsLongest` | algorithms/least_common_seq.cc:72-76 | an entry is at least as long as any string that ends at both positions |
| `CommonSequences.OnlyOneFirst` | algorithms/least_common_seq.cc:63-113 | there is only one such string, so both versions print the same |
| `CommonSequences.CompareSubstrings` | algorithms/least_common_seq.cc:63-113 | the two versions print the same string for all A and B |
| `InPlaceMerge.RotateRight` | algorithms/sort_merge.c:148-152 | the last n items come to the front, both parts in their order |
| `InPlaceMerge.ThreeReversals` | algorithms/sort_merge.c:148-152 | three reversals make a rotation |
| `InPlaceMerge.RotateSame` | algorithms/sort_merge.c:161-161 | rotating smaller items in front of greater ones keeps, for every key, the items with that key in order |
| `InPlaceMerge.RotateMerging` | algorithms/sort_merge.c:155-163 | a rotation keeps what is final final and both runs sorted |
| `InPlaceMerge.Merge` | algorithms/sort_merge.c:153-164 | two adjacent sorted runs become one sorted stable permutation in place, and the rest of the array is untouched |
| `InPlaceMerge.SamePermutation` | algorithms/sort_merge.c:153-164 | keeping the items of every key in order keeps the multiset of all items |
| `InPlaceMerge.Sort1` | algorithms/sort_merge.c:170-176 | the recursive sort ends sorted, stable, and a permutation of the input |
| `InPlaceMerge.FindRuns` | algorithms/sort_merge.c:194-199 | the recorded indices are the ends of the ascending runs |
| `InPlaceMerge.Sort3` | algorithms/sort_merge.c:193-212 | merging the natural runs one after another sorts every non-empty array stably |
| `Fifo.Fifo.Write` | func_libs/fx_fifo.h:293-320 | the bytes go to the end of the queue, across the end of the ring and of the 32-bit index |
| `Fifo.Fifo.Read` | func_libs/fx_fifo.h:259-276 | the first n bytes come out and are gone |
| `Fifo.Fifo.Drain` | func_libs/fx_fifo.h:243-250 | the first n bytes are gone |
| `Fifo.Fifo.Reset` | func_libs/fx_fifo.h:46-50 | the queue is empty |
| `Fifo.Fifo.PeekAt` | func_libs/fx_fifo.h:167-203 | returns n bytes from an offset and changes nothing |
| `Fifo.Fifo.Peek` | func_libs/fx_fifo.h:213-235 | returns the first n bytes and changes nothing |
| `Fifo.Fifo.Peek2` | func_libs/fx_fifo.h:384-392 | the position of a byte by its offset, and for a negative offset the position as far before the read position |
| `Fifo.Fifo.Realloc2` | func_libs/fx_fifo.h:331-349 | a reallocation keeps the bytes; a failed one changes nothing |
| `Fifo.Fifo.Grow` | func_libs/fx_fifo.h:360-371 | success leaves the bytes and at least the requested space; overflow of the total and lack of memory are errors that change nothing |
| `Fifo.Fifo.Size` | func_libs/fx_fifo.h:142-145 | the number of bytes, as long as it is below 2^31 |
| `Fifo.Fifo.Space` | func_libs/fx_fifo.h:153-156 | the number of free bytes, as long as it is below 2^31 |
| `Fifo.Run` | func_libs/fx_fifo.h:142-371 | any run of permitted operations gives the results and the final contents that it gives on a plain byte queue |
| `Fifo.FirstInFirstOut` | func_libs/fx_fifo.h:142-371 | what was there and has been put in is, in order, what has been taken out and what is still there |
| `Fifo.RingWrite` | func_libs/fx_fifo.h:300-316 | a chunk copied behind the bytes of the ring appends to them |
| `Md5.CompressUnrolled` | func_libs/fx_md5.h:108-145 | the unrolled rounds with renamed registers compute the block function |
| `Md5.CompressSmall` | func_libs/fx_md5.h:121-129 | the loop that rotates the registers computes the same function |
| `Md5.ChoiceIsF` | func_libs/fx_md5.h:90-90 | the first mixing function is F of section 3.4 of RFC 1321 |
| `Md5.Choice` | func_libs/fx_md5.h:90-90 | F takes each bit from the second word or the third as the first one says |
| `Md5.MixIsRfc` | func_libs/fx_md5.h:88-99 | the four groups of rounds mix with F, G, H and I of section 3.4 of RFC 1321 |
| `Md5.WordsInSteps` | func_libs/fx_md5.h:90-99 | the rounds take the words of the block from 0, 1, 5 and 0 on, in steps of 1, 5, 3 and 7 modulo 16, as section 3.4 of RFC 1321 lists them |
| `Md5.WordsOnce` | func_libs/fx_md5.h:90-99 | each group of 16 rounds takes each word once |
| `Md5.RotateIsNumber` | func_libs/fx_md5.h:100-100 | a rotation by t places is the product with 2^t modulo 2^32, plus the quotient by 2^(32 - t) |
| `Md5.WordOfBytes` | func_libs/fx_md5.h:115-119 | a word read from the bytes of a number, the low one first, is that number |
| `Md5.EmptyDigest` | func_libs/fx_md5.h:60-249 | the empty message has the digest that section A.5 of RFC 1321 gives for it, which fixes the constants |
| `Md5.FoldedPrefix` | func_libs/fx_md5.h:102-146 | the state after n blocks depends on nothing behind them |
| `Md5.Context.Init` | func_libs/fx_md5.h:161-169 | the context has taken in the empty message |
| `Md5.Context.Update` | func_libs/fx_md5.h:178-211 | after a message m, any further piece, at any address, leaves the state of the blocks of m followed by the piece, with the tail kept in the block |
| `Md5.Context.Blocks` | func_libs/fx_md5.h:196-207 | copying each block or hashing them where they are gives the same state |
| `Md5.UpdateAll` | func_libs/fx_md5.h:178-211 | however a message is split into pieces, the context has taken in their concatenation |
| `Md5.SameMessageSameState` | func_libs/fx_md5.h:178-211 | contexts that have taken in the same message agree in length, state and kept bytes |
| `Md5.Context.Final` | func_libs/fx_md5.h:219-232 | the digest is that of the message padded to whole blocks |
| `Md5.PaddedWhole` | func_libs/fx_md5.h:219-228 | the padding leaves whole blocks and adds at least 9 and at most 72 bytes |
| `Md5.Swap64Backwards` | func_libs/fx_md5.h:222-222 | the bit count is stored with its bytes turned round |
| `Md5.PaddingConforms` | func_libs/fx_md5.h:222-228 | the padding is that of sections 3.1 and 3.2 of RFC 1321 if and only if the bytes of the bit count read the same from both ends |
| `Md5.OnlyEmptyConforms` | func_libs/fx_bswap.h:30-30 | of all messages below 512 megabytes that is only the empty one |
| `Md5.SumOfPieces` | func_libs/fx_md5.h:242-249 | init, any run of updates and final give the digest of the whole message |
| `Md5.SumOf` | func_libs/fx_md5.h:242-249 | fx_md5_sum, with the rounds of MD5 |
| `PrintBuffer.AVBPrint.Alloc` | func_libs/fx_bprint.h:126-148 | grows to the needed size or to the limit and keeps the text; every error leaves the buffer as it was |
| `PrintBuffer.AVBPrint.AppendData` | func_libs/fx_bprint.h:285-301 | the length counts the whole text, the buffer keeps as much of its beginning as fits, with a terminator; with memory and a limit above the length it keeps all |
| `PrintBuffer.AVBPrint.Clear` | func_libs/fx_bprint.h:379-385 | the text is empty |
| `PrintBuffer.AVBPrint.CompleteMeansAll` | func_libs/fx_bprint.h:120-124 | the test for completeness tells whether the whole text is there if and only if the text has at most UINT_MAX - 5 characters or the buffer is not larger than that |
| `PrintBuffer.LostCharacter` | func_libs/fx_bprint.h:120-124 | such a text: after UINT_MAX - 4 characters an unlimited buffer claims to be complete, without the last one |
| `PrintBuffer.AppendAll` | func_libs/fx_bprint.h:285-301 | any run of appends keeps what fits of the concatenation |
| `PrintBuffer.CountThenPrint` | func_libs/fx_bprint.h:82-85 | counting with a limit of 0 and printing into a buffer of exactly that length plus one gives the whole text |
| `Dictionary.Get` | func_libs/fx_dict.h:113-141 | the first entry behind the given one whose key matches under the flags |
| `Dictionary.KeyMatches` | func_libs/fx_dict.h:127-138 | the character loops decide whether the key matches, up to case or exactly, as a whole or as a prefix |
| `Dictionary.ExactMatch` | func_libs/fx_dict.h:127-138 | with case the key matches if it is the entry's key, or with suffixes ignored a prefix of it |
| `Dictionary.MatchUpToCase` | func_libs/fx_dict.h:131-138 | without case each character has to be the same or the same ASCII letter in the other case |
| `Dictionary.AVDictionary.Set` | func_libs/fx_dict.h:170-245 | the new entries for all flags; a failure changes nothing, except that a value to be joined is lost when memory for the joined string is missing |
| `Dictionary.SetIsUpdate` | func_libs/fx_dict.h:170-245 | used with whole keys the dictionary is a map: a set changes the value of its own key as the flags say, of no other key, and keeps keys unique, although the last entry moves to the place of a removed one |
| `Dictionary.SetTwice` | func_libs/fx_dict.h:186-205 | of two values set for a new key the first stays, or the second replaces it or is joined to it, as the flags say |
| `Dictionary.SetAddsValue` | func_libs/fx_dict.h:170-245 | with several entries allowed for a key a set adds its value behind those that are there, and changes none |
| `Dictionary.WithoutLookup` | func_libs/fx_dict.h:204-204 | moving the last entry to the place of a removed one removes the value of that key only |
| `Dictionary.Copy` | func_libs/fx_dict.h:312-323 | the iteration with the empty key sets every entry of the source in order, up to the first set that fails, whose error is returned; the entries before it are copied |
| `Dictionary.CopyOverrides` | func_libs/fx_dict.h:312-323 | after a copy the keys of the source have the source's values and all others have kept theirs |
| `Dictionary.GetString` | func_libs/fx_dict.h:382-408 | the entries, escaped and separated; separators that cannot be read back are refused |
| `Dictionary.ReadRendered` | func_libs/fx_dict.h:366-408 | reading the string field by field gives back all keys and values, whatever characters they contain |
| `Dictionary.ReadTrimmedEscaped` | func_libs/fx_bprint.h:467-484 | a reader that drops whitespace at the ends and takes quoted stretches as they are also gives every escaped text back |
| `Dictionary.StringDetermines` | func_libs/fx_dict.h:366-408 | different dictionaries give different strings |
| `Permutations.PermuteByValue` | algorithms/permute.cc:23-40 | without swapping back, on a copy |
| `Permutations.PermuteInPlace` | algorithms/permute.cc:42-56 | with swapping back, which leaves the array as it was |
| `Permutations.ListsAll` | algorithms/permute.cc:23-56 | in both versions exactly the strings that keep the first k characters and rearrange the others are listed |
| `Permutations.ListsOnceIff` | algorithms/permute.cc:23-56 | in both versions nothing is listed twice if and only if the characters are different |
| `Permutations.ListsFactorial` | algorithms/permute.cc:23-56 | (n - k)! strings are listed, whatever the characters |
| `Permutations.Compare` | algorithms/permute.cc:65-79 | both programs list all rearrangements of the string; n! of them, each once if and only if the characters are different |
| `ZigZag.Fill` | codec_progs/zigzag.cc:12-29 | a numbers the cells in closed form, and b leads from every number below N * N back to its cell |
| `ZigZag.NumberInjective` | codec_progs/zigzag.cc:20-26 | no number occurs twice |
| `ZigZag.NumberSurjective` | codec_progs/zigzag.cc:20-26 | every number below N * N occurs |
| `ZigZag.NumbersFollow` | codec_progs/zigzag.cc:16-26 | the numbers count the cells along the walk from corner to corner, up and down the diagonals by turns |
| `ZigZag.Neighbours` | codec_progs/zigzag.cc:20-26 | consecutive numbers stand in cells that follow each other on the walk, so in neighbouring ones |

## Left out

- The buffer pool with a mutex instead of atomics, `av_buffer_make_writable` and `av_buffer_realloc`; the buffer contents play no part in the pool.
- BufferPool: is modelled on values, as a transition system, since the threads share the pool; the overflow of its int counters is not modelled.
- Options: long options, `W;`, the `+` and `-` ordering modes, printed messages, and callers that set `optind` to other values than 1 between calls.
- Integer128.Mod: does not cover the dividend -2^127, for which the source recurses without end, nor divisors that are not positive, which it asserts away.
- Integer128.Div: the same dividend and divisors.
- Integer128.Mul: the products of two limbs are computed in int by the source and can leave its range; the model takes them modulo 2^32, which is what the unsigned accumulator adds.
- Wildcards: the flags, character classes, collating symbols and equivalence classes, multibyte strings, and the functions on directories.
- Fifo.Fifo.Write: does not model callbacks, nor a write of more bytes than there is space for, which the source leaves to its callers.
- Fifo.Fifo.Realloc2: requires fewer than 2^31 bytes in the FIFO when it has to reallocate, as their number goes through an int.
- Fifo.Fifo.Grow: the same bound.
- Md5.Context.Final: the digest is given by the padded message of the source; it is not the digest of RFC 1321 except where the padding conforms. Big-endian hosts are not modelled.
- PrintBuffer: formatted output, dates, escaping on its own and the final copy; `fx_bprint_chars` differs from `AppendData` only in where the characters come from.
- Dictionary.Copy: does not cover the copy of a dictionary into itself, which the source carries out.
- Dictionary.GetString: assumes memory for the whole string. Parsing is not modelled, as `fx_get_token` is not part of this model.
- StringMatch.Kmp: searches with the table that `CptPfFunc` builds; what an entry that was never written leads to, once it is read, is not modelled.
- StringMatch.Compare: compares the matchers with that table built.
- MagicSquare: the bound of 30 on the order of the global array, and `pow`, which is exact for such orders.
- The overflow of int in the sums, counts and products of the algorithms, the bound of 100 on the pattern of the matcher, and 32-bit bounds of the table of counts.
- ComparisonSorts.SortQuickly: an empty array is left out, since the source reads the pivot first.
- Josephus.Simulate: m = 0, with which the source removes whoever it passes; `f2`, which does not compute what it is meant to.
- Longest increasing subsequences, the other sorts, `merge_pass` with its wrong split, and everything that only reads input, prints or measures time.
- Floating-point code, sockets, threads and the Windows parts of the library.
