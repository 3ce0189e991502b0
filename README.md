# Jumble solver, modelled in Dafny

A model of the jumble/anagram matcher in `jumble.py`. It takes a set of query
letters and a word list, and finds every word of the list that can be spelled
with at most as many of each letter as the query holds. The program has two
strategies that should agree:

- **Permutation strategy** (`solve_jumble_permuation`). For every k from 2 to
  the query length, it tries each ordered arrangement of k query letters
  against a flat set of words.
- **Signature strategy** (`solve_jumble_iteration`). It walks a dictionary that
  groups words by their distinct-letter set (their *signature*). It skips
  every group whose signature has an alphabet letter the query lacks. It then
  keeps each word in which no letter of the signature occurs more often than
  in the query.

Both strategies sort their answers with the longest words first and, among
words of equal length, in ascending alphabetical order. A selector keeps only
the letters of the raw query. It uses the permutation strategy when fewer
than 9 letters remain, and the signature strategy otherwise.

The project has three modules, one file each:

- `letters.dfy` (`LetterCounts`): signatures (`Letters`), per-letter counts
  (`Count`), and the constructibility test `Fits`, which is multiset inclusion.
  It also holds the k-arrangements that `itertools.permutations` enumerates,
  and the signature strategy's per-group test `Accepts`.
- `ranking.dfy` (`Ranking`): Python's string `<=` (`LexLe`) and the answer
  order `Precedes`, both proved to be total orders. It also holds the sort
  (`SortAnswers`) and a proof that the sorted list is fully determined by the
  words it holds.
- `jumble.dfy` (`Jumble`): the two dictionary loaders, both strategies, query
  cleaning, the selector, and the comparison of the two strategies.

The word list is given as a sequence of lines that are already stripped.
Strings are `seq<char>`. Nothing in the model is restricted to lower-case
letters: the signature strategy's alphabet filter only ever rejects words
that its count check would also reject. So `AcceptsIffFits` holds for any
characters.

The comments "Assuming min word length is 2" in `jumble.py` (jumble.py:51,
jumble.py:102) promise more than the code does; the model follows the code:

- The signature strategy does not apply the minimum word length of 2. A
  dictionary word of 0 or 1 letters that fits the query is returned
  (jumble.py:102-117). The permutation strategy never returns one
  (jumble.py:56). So the two strategies give the same words only on word
  lists whose words all have at least two letters (`StrategiesAgree`). On a
  shorter word they differ (`ShortWordsDiverge`).
- `create_set_dictionary` appends every line, repeats included
  (jumble.py:83). So a word that appears k times in the word list is returned
  k times by the signature strategy (`SolveIteration`, `Solve`) when it fits
  the query. Its answers have no repeats when the word list has none; a word
  is repeated in the answers exactly when it fits and is repeated in the
  word list.
- The query is not lower-cased (jumble.py:142). Upper-case query letters are
  kept as they are and only match identical characters.

## Model

| member | source | states |
|---|---|---|
| `LetterCounts.FitsLength` | jumble.py:56 | a word that can be spelled from the query is no longer than the query, so trying arrangement lengths up to `len(letters)` misses nothing |
| `LetterCounts.Count` | jumble.py:113 | the number of occurrences of one character, as `str.count` gives it: at most the string's length, and positive exactly when the character occurs |
| `LetterCounts.Arrangements` | jumble.py:57-58 | the joined `permutations(letters, i)`: every arrangement has exactly the requested length |
| `LetterCounts.ArrangementsExact` | jumble.py:56-58 | the joined k-arrangements of the query letters are exactly the strings of length k whose letter counts fit within the query's |
| `LetterCounts.Accepts` | jumble.py:105-115 | the group filter plus the count check; for any group key that covers all letters of the word, passing it means the word fits the query |
| `LetterCounts.AcceptsIffFits` | jumble.py:105-115 | for a word filed under its own signature, passing both the complement-alphabet group filter and the per-letter count check is equivalent to fitting the query; a single over-used letter excludes the word |
| `Ranking.LexLe` | jumble.py:64 | Python's `<=` on strings, by code point; a prefix of a string sorts no later than the string |
| `Ranking.LexLeTotal` | jumble.py:64 | the alphabetical comparison used by the first sort relates any two strings |
| `Ranking.LexLeAntisymmetric` | jumble.py:64 | two strings that are each alphabetically no later than the other are equal |
| `Ranking.LexLeTransitive` | jumble.py:64 | the alphabetical comparison is transitive |
| `Ranking.Insert` | jumble.py:63-65 | placing a word into a list in answer order keeps it in answer order and adds exactly that word |
| `Ranking.SortAnswers` | jumble.py:63-65 | the sorted list is in answer order (longer first, equal lengths alphabetical) and is a permutation of the unsorted answers |
| `Ranking.RankedUnique` | jumble.py:119-120 | two lists in answer order holding the same words with the same multiplicities are equal, so the result does not depend on the order answers were collected in |
| `Ranking.NoDuplicatesCounts` | jumble.py:54 | a list has no repeated word exactly when every word occurs in it at most once |
| `Jumble.OpenDictionary` | jumble.py:28-34 | the flat dictionary contains exactly the lines of the word list, repeats collapsed |
| `Jumble.CreateSetDictionary` | jumble.py:79-85 | the dictionary built line by line equals the grouping of every line under its signature, in word-list order, repeats kept |
| `Jumble.GroupedAppend` | jumble.py:83 | adding one line appends it to the group of its signature, creating the group when absent, and changes no other group |
| `Jumble.GroupedDictionaryShape` | jumble.py:83 | every grouped word is filed under its own signature, and each word occurs in its group exactly as often as in the word list |
| `Jumble.GroupedDictionaryDistinct` | jumble.py:83 | when the word list repeats no line, no group repeats a word |
| `Jumble.ListOf` | jumble.py:63 | listing the answer set gives each of its words exactly once |
| `Jumble.SolvePermutation` | jumble.py:37-66 | empty for queries under 2 letters; otherwise returns exactly the dictionary words of length at least 2 that fit the query (sound and complete), each of length at most the query's, without repeats, in answer order |
| `Jumble.AdmittedCount` | jumble.py:110-117 | scanning a group keeps a word as often as the group holds it when its counts of the signature letters fit, and never otherwise |
| `Jumble.LetterCountsFit` | jumble.py:111-115 | the early-exit letter scan reports valid exactly when no letter of the signature occurs more often in the word than in the query |
| `Jumble.SolveIteration` | jumble.py:88-121 | empty for queries under 2 letters; otherwise returns exactly the words of admitted groups whose letter counts fit, in answer order; on a well-formed dictionary each fitting word appears as often as its group holds it, and with no repeats when no group repeats a word |
| `Jumble.ScanStep` | jumble.py:108-117 | scanning one more group keeps the scan's invariants: the kept words are those that some scanned group admits, with the multiplicities above |
| `Jumble.StrategiesAgree` | jumble.py:37-121 | on a word list whose words all have at least two letters, the signature strategy over the grouped dictionary and the permutation strategy over the flat dictionary report the same words |
| `Jumble.ShortWordsDiverge` | jumble.py:102-117 | a listed word of fewer than two letters that fits a query of at least two letters is reported by the signature strategy and never by the permutation strategy |
| `Jumble.IsAlpha` | jumble.py:142 | `str.isalpha` on ASCII; every letter of the signature strategy's lower-case alphabet is a letter |
| `Jumble.CleanQuery` | jumble.py:142 | the cleaned query consists of letters only and is no longer than the raw query |
| `Jumble.CleanQueryCounts` | jumble.py:142 | cleaning keeps every letter as often as it occurs in the raw query and drops every other character |
| `Jumble.CleanQueryAppend` | jumble.py:142 | cleaning distributes over concatenation, so the letters keep their order |
| `Jumble.CleanQueryLettersOnly` | jumble.py:142 | a query made of letters only is unchanged by cleaning |
| `Jumble.Solve` | jumble.py:142-147 | the permutation strategy is used exactly when the cleaned query has fewer than 9 letters; the answer is in answer order with the per-word count of the chosen strategy; on word lists of words of length at least 2, either strategy returns exactly the listed words that fit a cleaned query of at least 2 letters |
| `Jumble.SolveDeterministic` | jumble.py:142-147 | two runs on the same raw query and word list give the same answer list |

## Left out

- Opening and reading the word-list file with UTF-8 decoding (jumble.py:30-31, 81-82), and the failure when it cannot be read. This is I/O. The word list is a parameter: a sequence of lines that are already stripped.
- `str.strip` (jumble.py:32, 83). Lines are given already stripped.
- `argparse` setup, printing the answers, and the "No words found" message (jumble.py:124-153). This is command-line glue.
- The Unicode meaning of `str.isalpha` (jumble.py:142). `IsAlpha` accepts the ASCII letters `a`-`z` and `A`-`Z` only.
- The enumeration order of `itertools.permutations`, and the repeated strings it yields for repeated letters. The arrangements of each length are modelled as a set of strings. Trying a repeated string again cannot change the answer set.
- The mechanics of Python's stable sorts (Timsort). `SortAnswers` is an insertion sort into the order the two stable sorts produce. `RankedUnique` shows that this order admits exactly one result. `jumble.py` sorts its list in place; the model returns the sorted sequence.
- The iteration order of Python's `dict` and `set`. Groups, signature letters and pending arrangements are taken in an arbitrary order. The final sort makes the result independent of that order.
- The timing rationale behind the threshold 9 (jumble.py:144). `Threshold` is a constant.
- Jumble.SolveIteration: for a dictionary that files a word under a signature other than its own (which `create_set_dictionary` never builds), only which words are returned is stated, not how often.
