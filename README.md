# Plagiarism detector: open-addressing hash table and rolling-hash matcher

This project models `open_addressing_hash_table.py`, a small plagiarism detector.
It finds every pair `(i, j)` where the length-`k` window of text `x` at `i`
equals the window of text `y` at `j`. It works in four steps:

1. Normalise both texts (`process_string`): drop spaces and lower-case.
2. Hash every window of `x`. Each window is read as a base-7 number over its
   character codes and taken modulo 10 (`str_to_int`, `_hash`), and
   `rolling_hashing` computes each window's hash from the previous one.
3. Insert every window of `x` into an open-addressing table.
   - The table has `rolling_table_size(len(x) - k + 1)` slots.
   - Collisions are resolved by double hashing (`HashTable`).
   - Each node keeps a key, a text and the list of start indexes of that text.
4. Look up every window of `y` in the table. Each hit contributes one pair per
   recorded index (`rh_get_match`).

The modules follow that structure:

- `HashTables` (`hash_table.dfy`) covers the node, the table and its two hash
  functions.
  - Insertion and search are specified by functions over the table's contents
    (`Insert`, `Search`).
  - Lemmas state what insertion keeps and what search then finds.
  - The class `HashTable` holds the slots in an `array` and updates them in
    place. Its two methods are proved against those functions.
- `RollingHash` (`rolling_hash.dfy`) covers `str_to_int`, `_hash` and the
  one-pass `rolling_hashing`. It proves that each rolled hash equals the hash
  of its window.
- `TableSize` (`table_size.dfy`) covers `rolling_table_size` as written: one
  trial-division pass that bumps the candidate. It also covers the size the
  code is documented to choose, the least prime at or above
  `int(keyNum * 1.3)`.
- `Primes` (`primes.dfy`) holds what a prime modulus gives double hashing:
  - every probe sequence visits every slot;
  - a prime always exists above any bound.
- `Processing` (`processing.dfy`) covers `process_string`.
- `Windows` (`windows.dfy`) defines the result the matcher means to compute,
  `AllMatches`, independently of any hashing. It proves that result sound,
  complete and ordered.
- `Matcher` (`matcher.dfy`) covers `rh_get_match`.
  - It proves that a successful run returns exactly `AllMatches`.
  - It proves when a run fails: no window, a single window, or a build that
    strands a window.
  - With a prime table size, every run with two or more windows succeeds.
- `WorkedCases` (`worked_cases.dfy`) covers concrete calls: the two documented
  examples, and a text on which the table size as written makes the matcher
  raise.

The source's exceptions are `Failure` values of `Result`:

- `TableFull` is "All slots in hash table is filled!". It is also what happens
  when the table has no slot at all, because the first insertion then raises.
- `DivisionByZero` is a table of one slot, where `hash_function_2` takes a
  remainder modulo 0.

Python's `%` by a positive number is Dafny's `%`. Every divisor the source
reaches is positive, except `capacity - 1` in `hash_function_2` for a table of
one slot, which is the `DivisionByZero` case. `int(keyNum * 1.3)` is taken as `keyNum * 13 / 10`,
truncated toward zero.

When `k` exceeds the length of the normalised `x`, `len(x) - k + 1` is 0 or
less, so the table has no slot and the first insertion raises: no empty list
is returned. When `k` equals that length there is one window and one slot, and
the first insertion divides by zero.

## Model

| member | source | states |
|---|---|---|
| HashTables.HashFunction1 | open_addressing_hash_table.py:41-42 | the home slot `k % m` is a slot of the table, in `[0, m)` |
| HashTables.HashFunction2 | open_addressing_hash_table.py:43-44 | the probe step `1 + k % (m - 1)` is never 0 and stays below `m` |
| HashTables.DoubleHashing | open_addressing_hash_table.py:36-39 | probe `i` of a key lands on a slot in `[0, m)` |
| HashTables.InsertProbe | open_addressing_hash_table.py:46-61 | the probe insertion stops at is the first one whose slot is empty or holds the same text; none exists exactly when every probe below the capacity is blocked |
| HashTables.FirstUnblocked | open_addressing_hash_table.py:46-60 | an unblocked probe at `q` means insertion stops at `q` or earlier |
| HashTables.InsertSlot | open_addressing_hash_table.py:46-58 | the slot insertion writes is empty or already holds the inserted text |
| HashTables.Insert | open_addressing_hash_table.py:46-61 | insertion fails (the source raises) exactly when all `capacity` probes meet other texts; otherwise the table keeps its size |
| HashTables.SearchFrom | open_addressing_hash_table.py:63-75 | a hit returns the index list of a node holding both the key and the text |
| HashTables.Search | open_addressing_hash_table.py:63-75 | a hit from probe 0 returns the index list of a node holding both the key and the text; `SearchFindsNode` and `SearchMisses` give the converse |
| HashTables.EmptyTable | open_addressing_hash_table.py:31-34 | a new table has `m` slots (none for `m <= 0`), all empty |
| HashTables.EmptyTableValid | open_addressing_hash_table.py:31-34 | an empty table of any size but 1 satisfies the table invariant |
| HashTables.InsertNewValue | open_addressing_hash_table.py:51-54 | a text reaching an empty slot gets a new node there with key, text and `[index]`; no other slot changes and one more slot is occupied |
| HashTables.InsertExistingValue | open_addressing_hash_table.py:56-58 | a text already on the probe path has `index` appended to its node, key and text unchanged |
| HashTables.InsertKeepsNodes | open_addressing_hash_table.py:46-61 | insertion never removes a node or changes its key or text |
| HashTables.SearchFromReaches | open_addressing_hash_table.py:63-75 | a search started at or before the probe that reaches a node holding key and text returns its indexes |
| HashTables.SearchFindsNode | open_addressing_hash_table.py:63-75 | in a table built by insertions, a stored key and text is always found, with its index list |
| HashTables.SearchMisses | open_addressing_hash_table.py:63-75 | search misses exactly when no node holds both the key and the text |
| HashTables.SearchAlongInsertPath | open_addressing_hash_table.py:46-75 | search follows the same probes as insertion; before insertion it finds the node at the insertion slot or a miss, after it the node with the new index |
| HashTables.InsertThenSearch | open_addressing_hash_table.py:46-75 | after inserting `(key, value, index)` the search returns the indexes found before, plus `index` |
| HashTables.ValueAtInsertSlot | open_addressing_hash_table.py:46-58 | a text already in the table sits exactly at the slot its insertion probes to |
| HashTables.ValueAtInsertSlotAfter | open_addressing_hash_table.py:46-58 | after insertion the inserted text is held only at its insertion slot |
| HashTables.InsertKeepsUnique | open_addressing_hash_table.py:46-61 | insertion keeps every text in at most one node |
| HashTables.ReachesGrows | open_addressing_hash_table.py:46-61 | filling more slots keeps every node reachable along its probe path |
| HashTables.InsertKeepsReachable | open_addressing_hash_table.py:46-61 | after insertion every node is still reached by its own key's probes through occupied slots |
| HashTables.InsertKeepsValid | open_addressing_hash_table.py:46-61 | insertion preserves the table invariant (unique texts, non-empty index lists, reachability) |
| HashTables.ProbesDistinct | open_addressing_hash_table.py:36-44 | with a prime capacity two different probe numbers below it hit different slots |
| HashTables.LaterProbeIsNew | open_addressing_hash_table.py:36-44 | with a prime capacity probe `i` hits none of the slots of probes `0..n-1` for `n <= i` |
| HashTables.ProbeSlotsCount | open_addressing_hash_table.py:36-44 | with a prime capacity the first `n` probes visit `n` distinct slots |
| HashTables.BlockedProbesOccupied | open_addressing_hash_table.py:46-60 | the slots of blocked probes are occupied |
| HashTables.InsertFailsOnlyWhenFull | open_addressing_hash_table.py:46-61 | with a prime capacity insertion raises only when every slot is occupied |
| HashTables.HashTable.constructor | open_addressing_hash_table.py:31-34 | the table has `capacity == m` and `m` empty slots |
| HashTables.HashTable.OpenAddressingInsert | open_addressing_hash_table.py:46-61 | the loop leaves the array equal to `Insert` of the old contents, or reports the raise and leaves it unchanged |
| HashTables.HashTable.OpenAddressingSearch | open_addressing_hash_table.py:63-75 | the loop returns `Search` of the array's contents |
| RollingHash.StrToInt | open_addressing_hash_table.py:111-131 | the base-7 number of a window, most significant character first; its contract is carried by `StrToIntChar` (one character is its code) and `StrToIntAppend` (Horner's step) |
| RollingHash.Hash | open_addressing_hash_table.py:133-148 | the hash of a window is a digit in `[0, 10)` |
| RollingHash.StrToIntChar | open_addressing_hash_table.py:111-131 | a single character's number is its code |
| RollingHash.StrToIntAppend | open_addressing_hash_table.py:111-131 | appending a character multiplies the number by 7 and adds the code |
| RollingHash.HashNext | open_addressing_hash_table.py:111-148 | the hash of the next window from the number of the current window's tail |
| RollingHash.LeadWeight | open_addressing_hash_table.py:111-131 | a window's number splits into its leading character's weight and the rest |
| RollingHash.RollStep | open_addressing_hash_table.py:175-183 | one rolling update from the hash of `w` gives exactly the hash of `w[1..] + [c]` |
| RollingHash.RollingHashing | open_addressing_hash_table.py:150-185 | one hash per window, in order, each equal to `_hash` of that window; `[_hash(x)]` when `k` exceeds the text |
| TableSize.MinLength | open_addressing_hash_table.py:198 | `int(keyNum * 1.3)` lies within one unit of `1.3 * keyNum`, at least `keyNum` |
| TableSize.SizeFold | open_addressing_hash_table.py:205-212 | the rest of the one pass from divisor `i`: the candidate never drops and rises by at most one per divisor tried |
| TableSize.SizeFor | open_addressing_hash_table.py:197-212 | up to 3 the minimum length itself; above, between `minL` and `minL + minL // 2 - 2` |
| TableSize.TableSize | open_addressing_hash_table.py:187-212 | no slot for no window, one slot for one window, at least one slot per window from two on |
| TableSize.RollingTableSize | open_addressing_hash_table.py:187-212 | the loop returns `TableSize`, within the bounds above |
| TableSize.SizeForFour | open_addressing_hash_table.py:205-212 | a minimum length of 4 would give 4, as the range of divisors is empty; `MinLengthNotFour` shows no window count produces it |
| TableSize.SizeForEight | open_addressing_hash_table.py:205-212 | a minimum length of 8 gives 10, not the next prime 11 |
| TableSize.TableSizeSeven | open_addressing_hash_table.py:197-212 | seven windows get 10 slots |
| TableSize.TableSizeEleven | open_addressing_hash_table.py:197-212 | eleven windows get 17 slots |
| TableSize.TableSizeTwelve | open_addressing_hash_table.py:197-212 | twelve windows get 17 slots |
| TableSize.MinLengthNotFour | open_addressing_hash_table.py:198-202 | no window count gives a minimum length of 4 |
| TableSize.HalfDivisor | open_addressing_hash_table.py:207-209 | a divisor of `q` at or above `q // 2` is half of `q` |
| TableSize.TrialHalfSuffices | open_addressing_hash_table.py:207-209 | trial division over `range(2, q // 2)` decides primality for `q >= 5` |
| TableSize.TrialDivision | open_addressing_hash_table.py:207-209 | the trial-division loop answers exactly whether `q` is prime |
| TableSize.PrimeTableSize | open_addressing_hash_table.py:187-196 | the documented size: prime and at least one slot per window from two windows on |
| TableSize.RollingPrimeTableSize | open_addressing_hash_table.py:187-212 | restarting trial division after each bump returns `PrimeTableSize` |
| Processing.RemoveSpaces | open_addressing_hash_table.py:102-103 | the result has no space and only characters of the input |
| Processing.LowerChar | open_addressing_hash_table.py:106-107 | `A`-`Z` become the letter in the same place of `a`-`z`, every other character is kept; so no upper-case letter results, and a space stays a space |
| Processing.Lower | open_addressing_hash_table.py:106-107 | lowering keeps the length and lowers every character in place |
| Processing.Normalise | open_addressing_hash_table.py:102-107 | one normalised text has no space and no upper-case letter and is no longer than the input |
| Processing.ProcessString | open_addressing_hash_table.py:85-109 | both results have no space and no upper-case letter and are no longer than the inputs |
| Processing.RemoveSpacesAppend | open_addressing_hash_table.py:102-103 | removing spaces distributes over concatenation |
| Processing.RemoveSpacesNoSpace | open_addressing_hash_table.py:102-103 | a text without spaces is unchanged |
| Processing.LowerNoUpper | open_addressing_hash_table.py:106-107 | a text without upper-case letters is unchanged by lowering |
| Processing.RemoveSpacesLower | open_addressing_hash_table.py:102-107 | removing spaces and lowering commute |
| Processing.LowerAppend | open_addressing_hash_table.py:106-107 | lowering distributes over concatenation |
| Processing.NormaliseAppend | open_addressing_hash_table.py:102-107 | normalisation distributes over concatenation |
| Processing.NormaliseChar | open_addressing_hash_table.py:102-107 | a space normalises to nothing, any other character to its lower-case form |
| Processing.NormaliseClean | open_addressing_hash_table.py:102-107 | a text with no space and no upper-case letter is its own normal form |
| Processing.NormaliseIdempotent | open_addressing_hash_table.py:102-107 | normalising twice is normalising once |
| Processing.NormaliseIgnoresCase | open_addressing_hash_table.py:102-107 | lowering first does not change the normal form |
| Processing.NormaliseCaseInsensitive | open_addressing_hash_table.py:102-107 | two texts that differ only in letter case normalise to the same text |
| Processing.NormaliseIgnoresSpace | open_addressing_hash_table.py:102-107 | an inserted space does not change the normal form |
| Windows.OccurrencesSpec | open_addressing_hash_table.py:238-239 | `i` is listed exactly when `i < n` and its window equals `w`; the list is strictly increasing |
| Windows.OccurrencesExactly | open_addressing_hash_table.py:238-239 | the occurrences are the one increasing list of the starts whose window is `w` |
| Windows.OccurrencesEmpty | open_addressing_hash_table.py:248-249 | no occurrence exactly when no window equals `w` |
| Windows.PairWith | open_addressing_hash_table.py:250-251 | one pair `(i, j)` per start index, in order |
| Windows.MatchesUpToMember | open_addressing_hash_table.py:245-251 | `(i, j)` is among the pairs of the first `m` windows of `y` exactly when the windows are equal |
| Windows.AllMatchesMember | open_addressing_hash_table.py:214-223 | `(i, j)` is reported exactly when `x[i:i+k] == y[j:j+k]` for window starts `i`, `j` |
| Windows.MatchesUpToOrdered | open_addressing_hash_table.py:245-251 | the pairs of the first `m` windows are ordered by `j`, then `i`, all with `j < m` |
| Windows.AllMatchesOrdered | open_addressing_hash_table.py:245-252 | the reported pairs come by increasing `j`, and for one `j` by increasing `i` |
| Windows.OccurrencesOfDistinct | open_addressing_hash_table.py:238-239 | with pairwise distinct windows, window `i` occurs at `i` alone |
| Windows.SelfMatchesDistinct | open_addressing_hash_table.py:263-265 | a text with distinct windows matches itself exactly on the diagonal `(i, i)` |
| Windows.SingleWindowMatches | open_addressing_hash_table.py:245-251 | a `y` of one window yields its occurrences in `x`, each paired with 0 |
| Matcher.Build | open_addressing_hash_table.py:237-239 | the table after inserting the first `n` windows keeps its `m` slots |
| Matcher.SearchBuilt | open_addressing_hash_table.py:248 | looking up any text in a built table returns exactly its start indexes, and misses when there are none |
| Matcher.InsertWindow | open_addressing_hash_table.py:238-239 | inserting window `n` changes one slot, which then holds that window under its hash with every start index of it up to `n`; every other slot is unchanged and holds another text |
| Matcher.ChangedSlotExact | open_addressing_hash_table.py:238-239 | the slot the insertion changes lists exactly the occurrences of its text so far |
| Matcher.ChangedSlotComplete | open_addressing_hash_table.py:238-239 | after inserting window `n` every window up to `n` has a node |
| Matcher.BuildKeepsInvariant | open_addressing_hash_table.py:238-239 | one insertion of the loop preserves the built-table invariant |
| Matcher.BuildStep | open_addressing_hash_table.py:238-239 | the next table is `Insert` of window `n` under its hash |
| Matcher.BuildInvariant | open_addressing_hash_table.py:237-239 | every table the loop builds satisfies the invariant |
| Matcher.BuildFailureStays | open_addressing_hash_table.py:238-239 | once an insertion raises, the build fails |
| Matcher.ProbesMatch | open_addressing_hash_table.py:244-251 | probing a built table for the windows of `y` yields exactly `MatchesUpTo` |
| Matcher.AppendPairs | open_addressing_hash_table.py:250-251 | the inner loop appends `(i, j)` for each found index, in order |
| Matcher.CollectMatches | open_addressing_hash_table.py:244-252 | the search loop returns the pairs found by probing every window of `y` |
| Matcher.BuildOccupancy | open_addressing_hash_table.py:238-239 | a table built from `n` windows has at most `n` occupied slots |
| Matcher.BuildSucceedsPrime | open_addressing_hash_table.py:238-239 | with a prime size at least the number of windows, no insertion raises |
| Matcher.InsertWindows | open_addressing_hash_table.py:237-239 | the insertion loop leaves the table `Build` describes, or raises exactly when `Build` fails; with no slot it raises |
| Matcher.MatchWithSize | open_addressing_hash_table.py:231-252 | for a given size: success returns `AllMatches`; size <= 0 raises table-full, size 1 divides by zero, from 2 on it fails exactly when the build fails |
| Matcher.RhGetMatch | open_addressing_hash_table.py:214-252 | success returns every matching pair of the normalised texts in order; no window raises table-full, one window divides by zero, otherwise failure exactly when the build strands a window |
| Matcher.RhGetMatchPrime | open_addressing_hash_table.py:214-252 | with the documented prime size, from two windows on the matcher always returns every matching pair |
| WorkedCases.HashPair | open_addressing_hash_table.py:133-148 | the hash of a two-character window is `(7 * ord(a) + ord(b)) % 10` |
| WorkedCases.HomeSlotEmpty | open_addressing_hash_table.py:46-54 | a key whose home slot is empty is inserted there |
| WorkedCases.CrowdedHashes | open_addressing_hash_table.py:133-148 | the windows of `"aabcbada"` hash to 6, 7, 5, 1, 3, 9, 7 |
| WorkedCases.StrandStep | open_addressing_hash_table.py:238-239 | a window whose home slot in a 10-slot table is empty lands there |
| WorkedCases.StrandBuildSix | open_addressing_hash_table.py:238-239 | the first six windows land on their home slots 6, 7, 5, 1, 3, 9 |
| WorkedCases.ProbesOfSeven | open_addressing_hash_table.py:36-44 | key 7 in a 10-slot table probes only slots 7, 5, 3, 1, 9 |
| WorkedCases.StrandedBuildFails | open_addressing_hash_table.py:238-239 | the seventh window finds all its probed slots taken, so the build fails |
| WorkedCases.CompositeSizeFails | open_addressing_hash_table.py:205-212 | seven windows of `"aabcbada"` get 10 slots and the build fails |
| WorkedCases.CrowdedStranding | open_addressing_hash_table.py:238-239 | `"aabcbada"` with `k = 2` has the stranding pattern |
| WorkedCases.CrowdedDistinct | open_addressing_hash_table.py:238-239 | the windows of `"aabcbada"` are pairwise distinct |
| WorkedCases.StrandedMatch | open_addressing_hash_table.py:214-252 | `rh_get_match(x, x, 2)` raises table-full for every normalised text with that pattern |
| WorkedCases.DiagonalMatchPrime | open_addressing_hash_table.py:263-265 | with the prime size a text of distinct windows matches itself exactly on the diagonal |
| WorkedCases.CrowdedAsWritten | open_addressing_hash_table.py:214-252 | `rh_get_match("aabcbada", "aabcbada", 2)` raises table-full |
| WorkedCases.CrowdedCorrected | open_addressing_hash_table.py:214-252 | with the prime size the same call returns `[(0, 0), ..., (6, 6)]` |
| WorkedCases.NormaliseCapitalised | open_addressing_hash_table.py:102-107 | a capitalised word normalises to its lower-case form |
| WorkedCases.NormaliseSpaced | open_addressing_hash_table.py:102-107 | two texts around a space normalise to the two normal forms joined |
| WorkedCases.ProcessToday | open_addressing_hash_table.py:258 | `process_string("Today is Monday", "day")` gives `("todayismonday", "day")` |
| WorkedCases.TodayOccurrences | open_addressing_hash_table.py:258 | `"day"` occurs in `"todayismonday"` at 2 and 10 |
| WorkedCases.TodayMatches | open_addressing_hash_table.py:258 | the matching pairs are `[(2, 0), (10, 0)]` |
| WorkedCases.SeventeenIsPrime | open_addressing_hash_table.py:205-212 | 17, the size the pass picks for 11 and 12 windows, is prime |
| WorkedCases.TodayIsMonday | open_addressing_hash_table.py:258 | `rh_get_match("Today is Monday", "day", 3)` returns `[(2, 0), (10, 0)]` |
| WorkedCases.ProcessHa | open_addressing_hash_table.py:261 | `process_string("Ha HA hA h.Apple ", "ha")` gives `("hahahah.apple", "ha")` |
| WorkedCases.HaOccurrences | open_addressing_hash_table.py:261 | `"ha"` occurs in `"hahahah.apple"` at 0, 2 and 4 |
| WorkedCases.HaMatches | open_addressing_hash_table.py:261 | the matching pairs are `[(0, 0), (2, 0), (4, 0)]` |
| WorkedCases.HaHaHa | open_addressing_hash_table.py:261 | `rh_get_match("Ha HA hA h.Apple ", "ha", 2)` returns `[(0, 0), (2, 0), (4, 0)]` |

## Left out

- The `next` field of `HashTableNode` (line 23) is not modelled. It is always `None`, and nothing in this file reads it.
- Node identity is not modelled. Nodes are values in the table's array. The source returns the node's own `indexes` list, which later insertions could mutate, and callers only read it. So aliasing is not modelled.
- `process_string` raising for `x == None` (lines 95-96) is left out. Dafny strings are never null.
- `Processing.LowerChar` lowers only the ASCII letters A-Z. Python's `str.lower` also lowers other Unicode letters, and the model does not capture that.
- `TableSize.MinLength` computes `int(keyNum * 1.3)` exactly as `keyNum * 13 / 10`. The floating-point product differs from the exact one only in rounding, and that is not modelled.
- The exception messages are not modelled. Only which exception is raised is kept, as `Matcher.MatchError`.
- `Matcher.RhGetMatch` requires `k >= 1`, which the source does not check. With `k == 0` the source reads `tempSub[0]` of an empty string and raises. A negative `k` makes Python slices count from the end. Neither behaviour is modelled.
- The example at line 265 is not checked on its 193-character text (157 characters without spaces, 148 windows). `Windows.SelfMatchesDistinct` and `WorkedCases.DiagonalMatchPrime` state it for every text whose windows are distinct. Whether the table size as written happens to succeed on that particular text is not modelled.
- Only the open-addressing matcher is modelled. The separate chained-table variant of the detector is not part of this model.
- `Primes.NextPrime` and `TableSize.PrimeTableSize` are ghost. The executable counterpart is `TableSize.RollingPrimeTableSize`.

## Findings

| source | as written | input that shows it | evidently intended | confidence | as-written member | corrected member |
|---|---|---|---|---|---|---|
| open_addressing_hash_table.py:205-212 | the loop makes one trial-division pass with divisors fixed from `minL // 2`, bumping `q` whenever `i` divides it; `continue` only moves to the next `i`, and the `return` ends the `while True` after that pass. The size can be composite (8 gives 10), and double hashing with a step sharing a factor with the size can strand a window while slots are free | `rh_get_match("aabcbada", "aabcbada", 2)`: seven windows, 10 slots; window `"da"` has key 7 and step 8, probes 7, 5, 3, 1, 9 only, all taken, so the call raises although slots 0, 2, 4 and 8 are free | the table size is "a prime number bigger than 1.3 times" the number of keys (lines 83 and 190), so restart trial division after each bump; with a prime size every window finds a slot | not executed | WorkedCases.CompositeSizeFails | TableSize.RollingPrimeTableSize |
