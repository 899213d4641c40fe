# ScrabbleSolver, modelled in Dafny

ScrabbleSolver is a brute-force anagram finder. You give it a row of letter tiles, where `*` is a wildcard that stands for any letter. It prints every dictionary word that can be laid from those tiles. The repository has two search engines and a progress reporter. This project models all three as imperative Dafny over an explicit string buffer, and proves what each one computes.

- **`Solver`, the current engine** (module `Engine`, built on `Tiles`, `Blanks`, `Subsequences`, `Permutations`, `Matching`, `Search` and `Progress`). `getCombinationswithBlanks` turns the input into wildcard-free sequences. `getCombinations` then appends every non-empty, order-keeping choice of tiles to a list. It also adds the factorial of each entry's length to a 64-bit goal counter, and `longValueExact` throws once an entry has more than 20 tiles. `permute` takes each entry through swap/recurse/swap-back. Every complete ordering goes through the leaf filter:
  - the word must be a dictionary word;
  - it must be new to the solution map;
  - it must be long enough;
  - it must match the pattern.

  In parallel mode, a combination of 9 tiles or more is split into one start point per tile, and each start point is permuted from index 1. `Solve` ends with the solution set, the number of orderings processed, and the goal.
- **`ScrabbleSolver`, the legacy engine** (modules `Legacy` and `LegacyMain`). A single recursion `solve(s, idx)` does the following:
  1. It resolves the first wildcard to A..Z, recursing at the same index.
  2. A wildcard-free node checks its own string against the dictionary and the `FOUND` map. It prints the string when it is new and at least 5 long.
  3. It recurses on every swap of position `idx` with a later one.
  4. It recurses on every deletion of a position from `idx` on.

  In parallel mode, `main` first collects 2n starting points: each tile swapped to the front (the swap is never undone), and the same point with that front tile removed.
- **`StatusReporter`** (module `Progress`). It keeps one counter bucket per thread, which `increment` updates and `get` sums and caches. It also draws a four-glyph spinner and a 40-column progress bar.

The proofs show the following:

- **Counts.** With the corrected wildcard loop, 26^k expansions for k wildcards; as written, 1 + 25k. Then 2^N − 1 combinations; (N − idx)! leaves per `permute`; one reporter increment per leaf. For a wildcard-free input of N tiles the exact number of orderings is the sum over L = 1..N of C(N, L)·L! (`GoalOfCombos`). With wildcards it is that sum taken over each sequence the wildcard loop hands on. The goal and the processed count are both 64-bit longs, equal to this number wrapped to 64 bits.
- **Enumeration order.** Pre-order by position ("ABC" gives A, AB, ABC, AC, B, BC, C). The leftmost wildcard varies slowest.
- **Restoration.** The swap, permute and deletion recursions, `getCombinations` and the corrected wildcard loops give their buffer back unchanged. There are two exceptions, both as written. The unrestored wildcard loops (`Search.GetCombinationsWithBlanks`, `Legacy.ScrabbleSolver.Solve`) leave every wildcard at 'Z'. The legacy start-point loop (`LegacyMain.StartingPoints`) never undoes its swap and leaves the input rotated right by one (`LegacyMain.AllSwapsRotate`).
- **Exact cover.** The parallel split covers exactly the orderings of the sequential run, in the same order.
- **Exact solution sets.** With the corrected wildcard loop, both engines record exactly the dictionary words spellable from some fill of the tiles. As written, `Engine.Solver.Solve` records exactly the dictionary words spellable from one of the 1 + 25k sequences its loop hands on, which for two or more wildcards is a strict subset (`Engine.SolveMissesTO`). The legacy engine as written records exactly the spellable dictionary words on wildcard-free input, and with wildcards only words some fill reaches (`LegacyMain.VisitsSound`). A word is printed exactly when it is new, long enough and on pattern.
- **Findings.** Proving the natural contracts exposed one defect, shared by both engines (see "## Findings").

Both engines are modelled as written: `Engine.Solver.Solve` and `LegacyMain.Run` use the wildcard loop that never puts the `*` back. The corrected versions, `Engine.Solver.SolveRestoring` and `Legacy.ScrabbleSolver.SolveRestoringBlanks`, are proved beside them.

The dictionary is a `set<string>`. The regular expression is an abstract predicate `string -> bool`. Printing appends to the `lines` of a `Console` object. The calling thread's id is a parameter.

## Model

| member | source | states |
|---|---|---|
| Tiles.Buffer.Swap | src/main/java/Solver.java:160-164 | the two positions exchange their tiles and every other position is unchanged |
| Tiles.SwappedTwice | src/main/java/Solver.java:160-164 | swapping the same two positions twice gives back the original sequence |
| Tiles.SwappedElsewhere | src/main/java/ScrabbleSolver.java:22-26 | a swap keeps every other position and the multiset of tiles |
| Tiles.Buffer.SetCharAt | src/main/java/Solver.java:110 | only position i changes, to c |
| Tiles.Buffer.Append | src/main/java/Solver.java:125 | the tile is added at the end |
| Tiles.Buffer.DeleteCharAt | src/main/java/ScrabbleSolver.java:61 | position i is removed and the tiles after it shift down |
| Tiles.Buffer.Insert | src/main/java/ScrabbleSolver.java:63 | the tile is inserted at i and the tiles from i shift up |
| Tiles.DeletedAt | src/main/java/ScrabbleSolver.java:61 | after deleting position i, positions below i are unchanged and the later ones hold the following tile |
| Tiles.DeletedMultiset | src/main/java/ScrabbleSolver.java:61 | deleting position i removes exactly one copy of t[i] from the tiles |
| Tiles.DeletedRestored | src/main/java/ScrabbleSolver.java:60-63 | inserting the deleted tile back at i restores the sequence |
| Tiles.FirstBlank | src/main/java/Solver.java:107-116 | the index of the first `*`, or the length when there is none |
| Tiles.StarsZero | src/main/java/Solver.java:107-118 | no wildcard is counted exactly when the sequence is wildcard-free |
| Tiles.StarsFilled | src/main/java/Solver.java:110 | setting a wildcard to a letter removes exactly one wildcard |
| Tiles.FactFitsLong | src/main/java/Solver.java:128 | n! fits a signed 64-bit long exactly when n ≤ 20 |
| Tiles.FactMonotone | src/main/java/Solver.java:128 | the factorial never decreases, so every entry longer than 20 overflows |
| Tiles.Wrap64 | src/main/java/Solver.java:62 | the result is a signed 64-bit value, and it equals the input when the input already fits |
| Tiles.WrapAdd | src/main/java/Solver.java:128 | wrapping after every addition gives the same result as wrapping once at the end |
| Search.LongCounter.AddAndGet | src/main/java/Solver.java:128 | the stored value is the old value plus delta, wrapped to 64 bits; the exact running sum grows by delta |
| Search.FactorialExact | src/main/java/Solver.java:128 | the result is exact exactly when n ≤ 20, and it is then n! and fits a long |
| Search.CombinationList.Add | src/main/java/Solver.java:127 | a copy of the entry is appended to the list |
| Search.GetCombinations | src/main/java/Solver.java:121-133 | without overflow: appends CombosFrom(s, build, idx), adds the sum of their factorials, and leaves build as it was. With overflow: appends the leftmost path up to the first entry of 21 tiles and stops |
| Search.Extend | src/main/java/Solver.java:125-131 | one loop iteration: append, record the copy, add its factorial, recurse, delete the last tile |
| Search.LeftmostPathShape | src/main/java/Solver.java:124-130 | on overflow the entries appended are build followed by the next 1, 2, … tiles, ending with one of 21 tiles |
| Search.GetCombinationsWithBlanks | src/main/java/Solver.java:104-119 | as written: the combinations of WrittenExpansions(s) are appended, the buffer ends with every wildcard at 'Z', and the call fails exactly when the input is longer than 20 |
| Search.WrittenLetters | src/main/java/Solver.java:109-112 | as written: the letter loop at the first wildcard yields the as-written expansions with 'A' there, then one sequence per later letter with every other wildcard at 'Z' |
| Search.GetCombinationsWithBlanksRestoring | src/main/java/Solver.java:104-119 | corrected: the combinations of every expansion are appended in expansion order, the buffer comes back unchanged, and the call fails exactly when the input is longer than 20 |
| Search.RestoringLetters | src/main/java/Solver.java:109-114 | corrected: letters A..Z at the first wildcard yield ExpandAt's expansions, and the `*` is put back afterwards |
| Search.InCombosOfAll | src/main/java/Solver.java:104-119 | an entry appears for the whole expansion list exactly when it comes from one of its expansions |
| Search.ExpansionsOfFill | src/main/java/Solver.java:118 | a wildcard-free input is passed through unchanged to getCombinations by either loop |
| Blanks.ExpansionsCount | src/main/java/Solver.java:104-119 | a sequence with k wildcards has exactly 26^k expansions |
| Blanks.ExpansionsAreFills | src/main/java/Solver.java:107-112 | every expansion replaces each `*` by a letter and keeps every other tile and the length; a wildcard-free sequence is its own only expansion |
| Blanks.ExpansionsComplete | src/main/java/Solver.java:107-112 | every fill of the wildcards is among the expansions |
| Blanks.ExpansionsSorted | src/main/java/Solver.java:107-112 | the expansions come out in strictly increasing dictionary order, so the leftmost wildcard varies slowest and none repeats |
| Blanks.FirstExpansion | src/main/java/Solver.java:109-111 | both the as-written and the corrected loop hand on the all-'A' fill first |
| Blanks.WrittenExpansionsCount | src/main/java/Solver.java:109-114 | as written, k wildcards yield 1 + 25k sequences instead of 26^k |
| Blanks.WrittenExpansionsAreFills | src/main/java/Solver.java:109-114 | every sequence the as-written loop yields is a genuine fill |
| Blanks.WrittenExpansionsStuckAtZ | src/main/java/Solver.java:109-114 | once the first wildcard is past 'A', every other wildcard of an as-written expansion holds 'Z' |
| Blanks.WrittenExpansionsMissBA | src/main/java/Solver.java:109-114 | "BA" is a fill and an expansion of "**" but never an as-written expansion |
| Blanks.FilledFacts | src/main/java/Solver.java:109-114 | every wildcard set to one letter gives a wildcard-free fill, and the input itself when that has no wildcard; with 'Z' it is the buffer the as-written loop leaves |
| Blanks.NoWrittenFillHolds | src/main/java/Solver.java:109-114 | with two wildcards, no sequence the as-written loop hands on holds two letters that are neither 'A' nor 'Z' |
| Subsequences.CombosArePositionSets | src/main/java/Solver.java:121-133 | the entries are build followed by the tiles at each non-empty set of positions of [idx, N), one per set, each in the original relative order |
| Subsequences.PositionSetsShape | src/main/java/Solver.java:124-130 | every listed position set is non-empty, increasing and within [i, n) |
| Subsequences.PositionSetsComplete | src/main/java/Solver.java:124-130 | every non-empty increasing set of positions of [i, n) is listed |
| Subsequences.PositionSetsDistinct | src/main/java/Solver.java:124-130 | no set of positions is listed twice |
| Subsequences.PositionSetsCount | src/main/java/Solver.java:124-130 | there are 2^(n − i) − 1 listed sets |
| Subsequences.CombosCount | src/main/java/Solver.java:121-133 | getCombinations(s, "", 0) appends exactly 2^N − 1 entries |
| Subsequences.CombosOfABC | src/main/java/Solver.java:124-131 | for "ABC" the entries come in pre-order: A, AB, ABC, AC, B, BC, C |
| Subsequences.CombosSpellSubMultisets | src/main/java/Solver.java:121-133 | some entry is a rearrangement of u exactly when u is non-empty and uses each tile at most once |
| Subsequences.FactSumOfCombos | src/main/java/Solver.java:128 | the factorials of the entries of getCombinations(s, build, idx) add up to the sum over L of C(m, L)·(|build| + L)! |
| Subsequences.GoalOfCombos | src/main/java/Solver.java:128 | a wildcard-free input of length N adds the sum over L = 1..N of C(N, L)·L! to the goal |
| Subsequences.BinomFactSumSplit | src/main/java/Solver.java:128-130 | Pascal's rule applied term by term: including the next tile or skipping it splits the sum |
| Permutations.LeavesCount | src/main/java/Solver.java:135-158 | permute(s, idx) reaches exactly (N − idx)! leaves |
| Permutations.LeavesRearrange | src/main/java/Solver.java:135-158 | every leaf rearranges s and leaves positions below idx untouched |
| Permutations.LeavesComplete | src/main/java/Solver.java:135-158 | every rearrangement that keeps positions below idx is a leaf |
| Permutations.LeavesDistinct | src/main/java/Solver.java:153-157 | with pairwise different tiles no two leaves coincide |
| Permutations.LeavesArePositionOrderings | src/main/java/Solver.java:135-158 | the leaves are s read through the orderings of its positions, and each ordering of the positions occurs exactly once |
| Permutations.LeavesExactly | src/main/java/Solver.java:135-158 | the leaves of permute(t, 0) are exactly the rearrangements of t |
| Permutations.SplitCoversPermutations | src/main/java/Solver.java:71-80 | permuting each start point from index 1 reaches the leaves of permute(t, 0), in the same order, each exactly once |
| Permutations.StartPoints | src/main/java/Solver.java:73-77 | start point i is the combination with positions 0 and i exchanged |
| Permutations.LeavesOfAllCount | src/main/java/Solver.java:86 | permuting each of the combinations in full reaches as many leaves as the sum of their factorials |
| Matching.PrintedExactly | src/main/java/Solver.java:140-146 | a word is printed exactly when it is met, is a dictionary word, was absent from the map, is long enough and matches; no word is printed twice |
| Matching.RecordedIncludesUnprinted | src/main/java/Solver.java:140-146 | a dictionary word that is met enters the solution map even when it is too short or off-pattern, and is then not printed |
| Matching.PrintedAppend | src/main/java/Solver.java:140-146 | checking a and then b prints what a prints, then what b prints against the map a left |
| Matching.SolutionMap.PutIfAbsent | src/main/java/Solver.java:141 | the answer is true exactly when the key was absent; the key is present afterwards |
| Matching.SolutionMap.ContainsKey | src/main/java/ScrabbleSolver.java:46 | true exactly when the key is present |
| Matching.SolutionMap.Put | src/main/java/ScrabbleSolver.java:50 | the key is present afterwards and nothing else changes |
| Matching.SolutionMap.Size | src/main/java/Solver.java:94 | the number of keys |
| Engine.Solver.Check | src/main/java/Solver.java:136-150 | the map and the console change as the leaf filter says for the one string, and the reporter is credited once |
| Engine.Solver.Permute | src/main/java/Solver.java:135-158 | the leaves of permute are checked in order; the buffer comes back unchanged; the thread's bucket grows by the number of leaves and the reporter's total by the same number |
| Engine.Solver.PermuteLoop | src/main/java/Solver.java:153-157 | the loop checks the leaves of every branch idx..N − 1, in order, and restores the buffer |
| Engine.Solver.Branch | src/main/java/Solver.java:154-156 | swap, permute from idx + 1, swap back: the leaves of the swapped sequence are checked and the buffer is restored |
| Engine.Solver.PermStartPoints | src/main/java/Solver.java:72-77 | the start points are collected in position order and the combination is restored |
| Engine.Solver.PermuteCombination | src/main/java/Solver.java:70-84 | in both branches the orderings checked are exactly the leaves of permute(combination, 0), in order |
| Engine.Solver.PermutePoints | src/main/java/Solver.java:79-80 | each start point is permuted from index 1, one after another |
| Engine.Solver.PermuteCombinations | src/main/java/Solver.java:69-87 | every combination's orderings are checked, in list order |
| Engine.Solver.Solve | src/main/java/Solver.java:45-97 | as written: the run overflows exactly when the input is longer than 20, and then prints nothing. Otherwise the solutions are the dictionary words among WrittenOrderings(input), the orderings of the combinations of the sequences the unrestored wildcard loop hands on; the printed lines are what the filter passes; the number of those orderings is the sum of the combinations' factorials; and the processed count and the goal are both that number wrapped to 64 bits |
| Engine.Solver.SolveRestoring | src/main/java/Solver.java:45-97 | corrected: the same, over the orderings of the combinations of every fill of the wildcards |
| Engine.Solver.Process | src/main/java/Solver.java:66-92 | the reporter starts from the goal, every ordering of every collected combination is checked in list order, and the processed count read from the reporter is the sum of the combinations' factorials wrapped to 64 bits |
| Engine.Collect | src/main/java/Solver.java:59-63 | as written: fails exactly when the input is longer than 20; otherwise the combinations of every sequence the unrestored wildcard loop hands on, in order, and the goal as their factorials summed and wrapped to 64 bits |
| Engine.CollectRestoring | src/main/java/Solver.java:59-63 | corrected: the same over every expansion of the wildcards |
| Engine.InOrderingsOf | src/main/java/Solver.java:59-92 | for any list of expanded sequences, the orderings checked are exactly the non-empty strings whose tiles can be taken from one of them |
| Engine.InWrittenOrderings | src/main/java/Solver.java:45-97 | as written, solve checks exactly the non-empty strings whose tiles can be taken from one of the sequences the unrestored wildcard loop hands on |
| Engine.InOrderings | src/main/java/Solver.java:45-97 | corrected: the orderings checked are exactly the non-empty strings whose tiles can be taken from some fill of the input's wildcards |
| Engine.WrittenOrderingsWithin | src/main/java/Solver.java:104-119 | every ordering solve checks as written is also checked by the corrected run: the defect only loses orderings |
| Engine.SolutionsCharacterised | src/main/java/Solver.java:94 | as written: a word is a solution exactly when it is a dictionary word spellable from one of the sequences the unrestored loop hands on, short or off-pattern words included |
| Engine.RestoredSolutionsCharacterised | src/main/java/Solver.java:94 | corrected: a word is a solution exactly when it is a dictionary word spellable from some fill of the tiles, short or off-pattern words included |
| Engine.SolveMissesTO | src/main/java/Solver.java:104-119 | from "**" with "TO" in the dictionary, the corrected run records "TO", and the run as written never checks it |
| Engine.PrintedCharacterised | src/main/java/Solver.java:140-146 | a word is printed exactly when it is a solution that is long enough and on pattern, and it is printed once |
| Engine.Solver.constructor | src/main/java/Solver.java:33-40 | the flag, the minimum length, the pattern and the dictionary are stored |
| Engine.Builder.constructor | src/main/java/Solver.java:166-169 | the defaults are parallel, 6 letters and the pattern `[A-Z]+` |
| Engine.Builder.WithParallel | src/main/java/Solver.java:171-174 | sets the flag, keeps the other settings, and returns the builder itself |
| Engine.Builder.WithMinCharacters | src/main/java/Solver.java:176-179 | sets the minimum length, keeps the other settings, and returns the builder itself |
| Engine.Builder.WithRegex | src/main/java/Solver.java:181-184 | sets the pattern, keeps the other settings, and returns the builder itself |
| Engine.Builder.Build | src/main/java/Solver.java:186-188 | a new solver with the builder's settings |
| Progress.StatusReporter.constructor | src/main/java/StatusReporter.java:25-31 | the goal is stored; the bucket map is empty, and the count and the spinner position are 0 |
| Progress.StatusReporter.Increment | src/main/java/StatusReporter.java:61-64 | the calling thread's bucket grows by one, starting from 1 when absent; the other buckets are unchanged; the total grows by one |
| Progress.StatusReporter.Get | src/main/java/StatusReporter.java:56-59 | returns the sum of all buckets, added up in a 64-bit long and so wrapped to 64 bits, and caches it in the count; the buckets are unchanged |
| Progress.CreditedSum | src/main/java/StatusReporter.java:61-64 | adding n to one thread's bucket adds n to the sum over all buckets, whether or not the bucket existed |
| Progress.CountsRead | src/main/java/StatusReporter.java:56-64 | reading after each of n increments under any thread ids gives 1, 2, …, n wrapped to a long, so while n fits a long the count never decreases |
| Progress.StatusReporter.Tick | src/main/java/StatusReporter.java:38-47 | the spinner moves one step modulo 4, and the bar is drawn for the given position with the new glyph |
| Progress.NextSpinner | src/main/java/StatusReporter.java:38-41 | the next position is (pos + 1) mod 4 and stays in 0..3 |
| Progress.FirstTick | src/main/java/StatusReporter.java:38-46 | the first tick of a new reporter shows '/' |
| Progress.BarLayout | src/main/java/StatusReporter.java:43-47 | for 0 ≤ pos ≤ 40 the bar is max(pos − 1, 0) '=', the spinner glyph and 40 − pos blanks: 40 columns for pos ≥ 1 and 41 at pos = 0 |
| Progress.Repeat | src/main/java/StatusReporter.java:45-47 | n copies of c, and none for n ≤ 0 |
| Legacy.PlainVisitsExactly | src/main/java/ScrabbleSolver.java:46-64 | a wildcard-free node checks exactly the strings longer than idx that keep the first idx tiles and use each remaining tile at most once |
| Legacy.NothingReachableAtEnd | src/main/java/ScrabbleSolver.java:29-31 | nothing is checked once idx has reached the length |
| Legacy.NoVisitsAtEnd | src/main/java/ScrabbleSolver.java:29-31 | solve(t, length) checks nothing, with either wildcard loop, the empty buffer included |
| Legacy.WrittenVisitsOfFill | src/main/java/ScrabbleSolver.java:35-44 | a wildcard-free node skips the wildcard loop |
| Legacy.InVisitsOfAll | src/main/java/ScrabbleSolver.java:37-40 | a string is checked for a list of fills exactly when it is checked for one of them that is long enough |
| Legacy.ScrabbleSolver.Check | src/main/java/ScrabbleSolver.java:46-51 | a new dictionary word enters FOUND and is printed when it has at least 5 letters; anything else changes nothing |
| Legacy.ScrabbleSolver.Solve | src/main/java/ScrabbleSolver.java:28-65 | as written: FOUND and the console change as the checks of Visits(s, idx) say, in order; the buffer ends with its wildcards at 'Z' (unchanged at idx = length) |
| Legacy.ScrabbleSolver.SolveRestoringBlanks | src/main/java/ScrabbleSolver.java:28-65 | corrected: the checks of every fill are made and the buffer comes back unchanged |
| Legacy.ScrabbleSolver.SolvePlain | src/main/java/ScrabbleSolver.java:46-64 | a wildcard-free node checks its own string, then runs the swap loop and the deletion loop, and restores the buffer |
| Legacy.ScrabbleSolver.SwapLoop | src/main/java/ScrabbleSolver.java:53-57 | the checks of every swap of idx with i ≥ idx, solved from idx + 1, in order; the buffer is restored |
| Legacy.ScrabbleSolver.SwapStep | src/main/java/ScrabbleSolver.java:54-56 | one swap, solve and swap back; the buffer is restored |
| Legacy.ScrabbleSolver.DeleteLoop | src/main/java/ScrabbleSolver.java:59-64 | the checks of every deletion of a position i ≥ idx, solved from idx, in order; the buffer is restored |
| Legacy.ScrabbleSolver.DeleteStep | src/main/java/ScrabbleSolver.java:60-63 | one delete, solve and insert; the buffer is restored |
| Legacy.ScrabbleSolver.Letters | src/main/java/ScrabbleSolver.java:36-42 | as written: the 'A' fill is solved with later wildcards still open, then each later letter with the others at 'Z'; the buffer ends at the 'Z' fill |
| Legacy.ScrabbleSolver.RestoringLetters | src/main/java/ScrabbleSolver.java:36-42 | corrected: every letter is solved with the later wildcards open, and the `*` is put back |
| LegacyMain.StartingPoints | src/main/java/ScrabbleSolver.java:89-98 | the points are StartPoints(s, n), and the buffer ends as the swaps left it |
| LegacyMain.CollectPoint | src/main/java/ScrabbleSolver.java:91-97 | iteration i keeps tile i in front of the others, and the same point without it |
| LegacyMain.StartPointAt | src/main/java/ScrabbleSolver.java:89-98 | there are 2n points; entry 2k is s[k] then s[..k] then s[k+1..], and entry 2k + 1 is s without position k |
| LegacyMain.StartPointIs | src/main/java/ScrabbleSolver.java:89-98 | entry 2k of the points is tile k moved to the front and entry 2k + 1 is the input without tile k |
| LegacyMain.StartPointsMembers | src/main/java/ScrabbleSolver.java:89-98 | the points are exactly each tile moved to the front and each single-tile deletion |
| LegacyMain.AllSwapsRotate | src/main/java/ScrabbleSolver.java:91 | the swap is never undone, so the buffer ends rotated right by one |
| LegacyMain.FrontAtStep | src/main/java/ScrabbleSolver.java:91 | swapping 0 with i in what iteration i − 1 left moves tile i of the input to the front |
| LegacyMain.SolvePoints | src/main/java/ScrabbleSolver.java:100-102 | each point is solved in list order, full-length points from idx 1 and shorter ones from idx 0 |
| LegacyMain.Run | src/main/java/ScrabbleSolver.java:84-107 | FOUND and the console change as the checks of RunVisits(input, parallel) say, and the count is FOUND's size |
| LegacyMain.PointVisitsFrom | src/main/java/ScrabbleSolver.java:100-102 | whatever the point list checks, solving one of its points checks |
| LegacyMain.ReachableFromStart | src/main/java/ScrabbleSolver.java:104 | from idx 0 the strings checked are the non-empty ones that use each tile at most once |
| LegacyMain.SequentialCoverage | src/main/java/ScrabbleSolver.java:104 | sequential mode on a wildcard-free input checks exactly the spellable strings |
| LegacyMain.ParallelCoverage | src/main/java/ScrabbleSolver.java:88-102 | parallel mode on a wildcard-free input of two tiles or more checks exactly the spellable strings too |
| LegacyMain.CoveringPoint | src/main/java/ScrabbleSolver.java:88-102 | every spellable string is checked from some starting point |
| LegacyMain.PointSound | src/main/java/ScrabbleSolver.java:88-102 | everything a starting point checks is spellable from the whole input |
| LegacyMain.SingleTile | src/main/java/ScrabbleSolver.java:88-104 | a single tile checks nothing in parallel mode, and checks itself in sequential mode |
| LegacyMain.RunResult | src/main/java/ScrabbleSolver.java:46-51 | FOUND gains exactly the spellable dictionary words; a word is printed exactly when it is spellable, new and at least 5 long |
| LegacyMain.RestoredVisitsExactly | src/main/java/ScrabbleSolver.java:35-44 | corrected: a string is checked exactly when some fill of the wildcards reaches it |
| LegacyMain.VisitsSound | src/main/java/ScrabbleSolver.java:35-44 | as written, only strings that some fill reaches are checked |
| LegacyMain.NoWrittenFillSpellsBC | src/main/java/ScrabbleSolver.java:37-40 | no as-written fill of "**" holds both a 'B' and a 'C' |
| LegacyMain.VisitsMissBC | src/main/java/ScrabbleSolver.java:35-44 | the corrected loop checks "BC" from "**", and the loop as written never does |

## Left out

- `Main.java`: command-line parsing, help text and `System.exit` are not part of this model. So are the legacy "Pass input." check, the status header and the summary line that `Solver.solve` prints (Solver.java:46-57 and 92-96), and the legacy summary line "Found %s words for %s" (ScrabbleSolver.java:107). Those lines format the solution count, the processed count and the input, which the model returns as values: `Outcome.Summary` in `Engine`, and the count that `LegacyMain.Run` returns.
- Dictionary loading (`populateDictionary`, `readDictionary`) is resource I/O. The dictionary is a given `set<string>`.
- Concurrency: each parallel stream is walked sequentially, in list order.
  - `ConcurrentHashMap` and `AtomicLong` are plain fields.
  - The calling thread's id is a parameter.
  - In the legacy engine, `containsKey` and `put` are separate calls, so two threads can both print the same word. The model cannot show that.
  - The interleaving of printed lines between threads is not modelled.
- Progress.StatusReporter.Increment: each thread's bucket is kept as an exact integer, while the source's `Long` bucket would wrap after 2^63 increments by one thread. What `get` returns is the same either way, because the sum is wrapped to 64 bits.
- Regular-expression matching is an abstract predicate. The default `[A-Z]+` is written out as `UpperCaseWord`.
- The status task's floating-point percentage and rounding are out of scope. The bar position is an integer input to `Tick`. The `%.2f%%` suffix, the right padding to the console width and the carriage return are not modelled.
- The scheduled executor, its delays and `close`/`shutdown` are not modelled. Each call to `Tick` stands for one run of the scheduled task.
- The per-iteration helper methods (`Branch`, `Extend`, `SwapStep`, `DeleteStep`, `CollectPoint`, the letter steps) and the peeled first iterations split Java loops for the proofs. `Engine.Collect` and `Engine.Solver.Process` split `solve` into its collecting half and its permuting half. None of them changes the order of effects.
- `BigIntegerMath.factorial(n).longValueExact()` is the bounded `FactorialExact`. When it throws, `solve` ends with `Overflow`. The model stops at the throwing entry. Everything printed before the throw was the header, which is left out.
- LegacyMain.SolvePoints: requires `points != [] ==> n > 0`. `main` only ever passes the input's own length, which is positive whenever there are points.
- LegacyMain.SingleTile: this records a quirk rather than a defect. A one-tile input in parallel mode checks nothing, because its full-length point is solved from idx 1 = its length.
- LegacyMain.RunResult: stated for wildcard-free input only, as are `SequentialCoverage` and `ParallelCoverage`. For inputs with wildcards, `VisitsSound` (as written) and `RestoredVisitsExactly` (corrected) state what is checked.

## Findings

| source | as written | input that shows it | evidently intended | confidence | as-written member | corrected member |
|---|---|---|---|---|---|---|
| src/main/java/Solver.java:104-119 | the `*` is never restored after the A..Z loop, so after the first letter every later wildcard stays at 'Z', and k wildcards yield 1 + 25k fills instead of 26^k | "**" with "TO" in the dictionary: "TO" is never checked, recorded or printed, because no sequence handed to getCombinations holds both 'T' and 'O' | every fill of the wildcards is enumerated (26^k fills) | high; not executed | Engine.Solver.Solve (with Engine.SolveMissesTO, Search.GetCombinationsWithBlanks, Blanks.WrittenExpansionsCount) | Engine.Solver.SolveRestoring (with Engine.RestoredSolutionsCharacterised, Search.GetCombinationsWithBlanksRestoring, Blanks.ExpansionsCount, Blanks.ExpansionsComplete) |
| src/main/java/ScrabbleSolver.java:35-44 | the same unrestored wildcard loop in the legacy recursion | "**": "BC" is never checked, although it is spellable from a fill | every fill is solved | high; not executed | Legacy.ScrabbleSolver.Solve (with LegacyMain.VisitsMissBC) | Legacy.ScrabbleSolver.SolveRestoringBlanks (with LegacyMain.RestoredVisitsExactly) |
