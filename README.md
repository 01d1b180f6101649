# DomainSuggester suggestion engine, in Dafny

This project models the engine behind DomainSuggester's `Domainer.gen_domains` and `Domainer.levsort` (`suggestor.py`), and proves properties of that model.

Given a keyword, the engine does the following:

1. It breaks the keyword into fragments: its words, or the n-grams of each word.
2. It tries every ordered selection of as many fragments as the keyword has words.
3. For each selection, it collects the corpus lines that contain those fragments in order, ignoring case.
4. Optionally it drops candidates that are too long.
5. It answers `None` when nothing was collected.
6. Otherwise it may deduplicate the candidates and rank them by optimal-string-alignment distance to the keyword, using an in-place bubble sort.
7. Finally it removes each candidate's trailing zone (`.com`, `.co.uk`, …) and attaches the requested zones.
   As written, only the first name gets every requested zone and each later name just the last one (see "## Findings"). The model proves this, and uses the intended every-name-with-every-zone expansion elsewhere.

## Modules

The project has one file per module:

| File | Module | What it models |
|---|---|---|
| `wrappers.dfy` | `Wrappers` | `Option`. |
| `text.dfy` | `Text` | Python 2 `str.split()` and `str.split(sep)`, joining, and ASCII case folding. |
| `fragments.dfy` | `Fragments` | The fragment pool, plus the loops that build it (`GenerateFragments`, `AddWordFragments`). |
| `permutations.dfy` | `Permutations` | `itertools.permutations` as ordered selections of distinct positions, and their count. |
| `matching.dfy` | `Matching` | What `re.findall` returns for the pattern `.*?f1.*f2…fr.*` with `re.I`. |
| `search.dfy` | `Search` | The `check_lengh` filter, the nested permutation and file loops as methods, and what they collect. |
| `zones.dfy` | `Zones` | The `get_str` rewrite `re.sub('([.][a-z]{2,4})+$', '', s)`, and zone expansion, both as written and as intended. |
| `distance.dfy` | `Distance` | `edit_distance(s, d, transpositions=True)`, the optimal-string-alignment distance. |
| `sorting.dfy` | `Sorting` | The swap-when-greater bubble sort over an array, for any key; it is proved equal to a reference stable insertion sort. |
| `suggestor.dfy` | `Suggestor` | `levsort` and `gen_domains` end to end, and the properties of their answer. |

## How the source is modelled

- **Corpus.** The corpus is a parameter: a sequence of file contents.
- **How `findall` matches.** The pattern is `.*?f1.*f2…fr.*` and `.` does not match a line break. Each match is therefore a whole line that contains the fragments in order, ignoring ASCII case.
  - `Matching.GreedyMatchIsExact` shows that a leftmost-greedy search decides this exactly.
  - With no fragments (a blank keyword) the pattern is `.*?.*`. Python 2 `findall` then returns each non-empty line followed by an empty match, and `""` for each empty line; `Matching.FindAll` models exactly that.
- **Trailing line break.** `$` also matches just before a final line break. `Zones.StripZone` therefore strips in front of a final `"\n"`.
- **Zones on the ranking path.** On that path the names are stripped by `levsort` (line 142), and the key strips them again (line 147). They are stripped once more before expansion (line 120). The model does all three.
- **Deduplication.** `set(domains)` happens only when `sort and grams_length` holds. It is modelled as first-occurrence deduplication (`Suggestor.Dedup`).
- **Names can repeat after ranking.** `set(domains)` removes duplicate found domains, not duplicate names. `ab.com` and `ab.net` are distinct domains but both strip to `ab`, so the ranked names hold `ab` twice and the answer repeats every `ab.<zone>` (`Suggestor.StrippedNamesCanRepeat`, `Suggestor.AbTwice`).
- **Bubble sort.** The sort swaps `j` and `j + 1` only when the left key is strictly greater. This makes it stable. `Sorting.BubbleSort` is proved equal to `Sorting.InsertionSort`; a sorted, per-key order-preserving rearrangement is unique (`Sorting.StableSortUnique`).

## What a match is

- **Lines, not tokens.** `.` never crosses a line break, so a corpus file is searched line by line, and a match is always one whole line.
- **A line with several domains is matched whole.** With the corpus `"testdomain.com anotherword.net"` and keyword `test`, the match is the whole line `"testdomain.com anotherword.net"`, not the token `testdomain.com`. Stripping it gives `"testdomain.com anotherword"` (`Matching.WholeLineIsTheMatch`).

## Model

| member | source | states |
|---|---|---|
| Text.Words | suggestor.py:90 | `keyword.split()` yields only non-empty words without whitespace |
| Text.WordsOfJoined | suggestor.py:90 | splitting words joined by spaces gives the same words back |
| Text.SplitOn | suggestor.py:124 | `zone.split(',')` always yields at least one piece |
| Text.SplitOnPiecesHaveNoSep | suggestor.py:124 | no piece of a split holds the separator |
| Text.JoinSplitOn | suggestor.py:124 | joining the pieces of a split with the separator restores the string |
| Text.SplitJoinOn | suggestor.py:124 | splitting separator-free pieces joined by the separator gives the pieces back |
| Fragments.Pool | suggestor.py:89-96 | the grams list itself: each word, or each word's n-grams, flattened in word order; its properties are in the rows below |
| Fragments.Windows | suggestor.py:92-94 | the n-grams of a word are its `max(0, len(w)-n+1)` windows, window `k` starting at `k` |
| Fragments.GenerateFragments | suggestor.py:89-96 | the fragment loop builds exactly the pool of the keyword's words |
| Fragments.AddWordFragments | suggestor.py:91-96 | one word's turn appends exactly that word's fragments: its n-grams in window order, or the word itself |
| Fragments.PoolWithoutNgrams | suggestor.py:95-96 | without an n-gram length the fragments are the words, in order |
| Fragments.PoolSize | suggestor.py:91-94 | with n-grams the pool has the sum over words of `max(0, len(w)-n+1)` fragments |
| Fragments.WindowMembers | suggestor.py:92-94 | a string is an n-gram of a word exactly when it is a window of it |
| Fragments.PoolMembers | suggestor.py:90-94 | a fragment is in the pool exactly when it is a window of some word |
| Fragments.PoolHoldsWords | suggestor.py:90-96 | every fragment is non-empty and free of whitespace, hence of line breaks |
| Fragments.TwoWordBigrams | suggestor.py:90-94 | `"ab cd"` with 2-grams gives the fragments `["ab", "cd"]` |
| Permutations.Selections | suggestor.py:98-99 | every selection has `r` entries, each taken from the available positions |
| Permutations.FallingIsFactorialQuotient | suggestor.py:98-99 | the falling factorial `Falling(m, r)` is `m!/(m-r)!` |
| Permutations.FallingBeyondPool | suggestor.py:98-99 | with fewer fragments than words there is no permutation |
| Permutations.SelectionCount | suggestor.py:98-99 | there are `Falling(m, r)` selections |
| Permutations.SelectionsAreDistinct | suggestor.py:98-99 | a selection never uses a position twice |
| Permutations.SelectionsAreComplete | suggestor.py:98-99 | every sequence of `r` distinct available positions is a selection |
| Permutations.PermutationSpace | suggestor.py:98-99 | the loop ranges over exactly the sequences of `r` distinct positions below `m`, and there are `m!/(m-r)!` of them |
| Permutations.TwoOrders | suggestor.py:98-99 | two fragments give two orders, `(0, 1)` and then `(1, 0)` |
| Matching.FindAll | suggestor.py:101-107 | `regex.findall(data)` itself: the lines holding the fragments in order, or with no fragments every line and its empty match; properties below |
| Matching.FindFrom | suggestor.py:101-102 | the search returns the leftmost case-insensitive occurrence at or after a position, or none |
| Matching.GreedyMatchIsSound | suggestor.py:101-102 | when the greedy search succeeds, the line holds the fragments in order |
| Matching.GreedyMatchIsComplete | suggestor.py:101-102 | when the line holds the fragments in order, the greedy search succeeds |
| Matching.GreedyMatchIsExact | suggestor.py:101-102 | the greedy search succeeds exactly when the line holds the fragments in order |
| Matching.EmptyPatternMembers | suggestor.py:101-107 | with no fragments the matches are the lines and the empty string |
| Matching.MatchingLinesMembers | suggestor.py:101-107 | with fragments the matches are the lines holding them in order |
| Matching.FindAllMembers | suggestor.py:101-107 | a match is a whole line holding the fragments in order, or `""` with no fragments |
| Matching.MatchesAreSingleLines | suggestor.py:101-107 | no match holds a line break |
| Matching.WholeLineIsTheMatch | suggestor.py:101-107 | a line holding two domains is matched whole, not one token |
| Search.Fits | suggestor.py:81-83 | `check_lengh` itself: shorter than `length + len(zone)`, with `zone` the whole argument |
| Search.KeepFitting | suggestor.py:109-110 | `filter(check_lengh, matches)` itself; properties below |
| Search.FileMatches | suggestor.py:104-110 | one file's matches, filtered only when `length` is not zero |
| Search.Candidates | suggestor.py:98-111 | everything the loops collect, duplicates kept, in loop order |
| Search.KeepFittingCounts | suggestor.py:81-83 | the length filter keeps every occurrence of a fitting string, and nothing else |
| Search.KeepFittingMembers | suggestor.py:109-110 | a string survives the filter exactly when it was matched and is shorter than `length + len(zone)` |
| Search.KeepFittingSplits | suggestor.py:109-110 | the filter works element by element and keeps their order |
| Search.KeepFittingKeepsFitting | suggestor.py:109-110 | when every match fits, the filter removes nothing |
| Search.FlattenMembers | suggestor.py:111 | the extended list holds exactly what some part holds |
| Search.SearchFiles | suggestor.py:104-111 | the file loop collects each file's filtered matches, in file order |
| Search.Search | suggestor.py:98-111 | the permutation loop collects each permutation's matches, in permutation order |
| Search.FileMatchesMembers | suggestor.py:104-110 | one file yields a match that passes the filter when a length is given |
| Search.PermutationMatchesMembers | suggestor.py:104-111 | one permutation yields what some file yields |
| Search.AllMatchesMembers | suggestor.py:98-111 | the loops collect what some permutation yields |
| Search.CandidatesAreFound | suggestor.py:98-111 | every collected string comes from some selection of distinct positions and some file |
| Search.FoundAreCandidates | suggestor.py:98-111 | every string some selection and file let through is collected |
| Search.CandidatesAre | suggestor.py:98-111 | collected exactly when some selection and some file let it through |
| Search.NothingFoundIff | suggestor.py:98-114 | nothing is collected exactly when no selection and no file let anything through |
| Zones.StripZone | suggestor.py:119 | the `get_str` rewrite itself: the leftmost trailing run of `.xx`–`.xxxx` groups removed, before a final line break if there is one; properties below |
| Zones.FirstWidth | suggestor.py:119 | every zone run opens with a group of three to five characters |
| Zones.RunConcat | suggestor.py:119 | two runs of zone groups side by side form one run |
| Zones.RunHasNoNewline | suggestor.py:119 | a zone run holds no line break |
| Zones.RunOpensWithDot | suggestor.py:119 | a zone run starts with a dot |
| Zones.RunStart | suggestor.py:119 | finds the leftmost start of a zone run that reaches the end |
| Zones.StripTailLeavesNoRun | suggestor.py:119 | after stripping, no suffix is a zone run |
| Zones.StripZoneRemovesTrailingRun | suggestor.py:119 | on a line, `get_str` removes a prefix-preserving trailing zone run, and no suffix of the result is a zone run |
| Zones.StripZoneIdempotent | suggestor.py:119 | stripping a line twice is stripping it once |
| Zones.StripWithoutDot | suggestor.py:141 | a name without a dot is left as it is |
| Zones.StripTwoGroups | suggestor.py:119 | `ab.co.uk` strips to `ab` |
| Zones.StripKeepsUpperCase | suggestor.py:119 | `ab.COM` is left as it is, since `[a-z]` is lower case only |
| Zones.StripAttachedZone | suggestor.py:119-125 | stripping undoes attaching one group-shaped zone (such as `com`) to a dot-free name |
| Zones.Expansion | suggestor.py:122-126 | the intended expansion itself: every name with every zone, name-major; properties below |
| Zones.ExpandAsWritten | suggestor.py:122-126 | the expansion as the loop is written: the first name with every piece, later names with the last piece only |
| Zones.ExpansionLength | suggestor.py:122-126 | the intended expansion has `len(names) * len(zones)` domains |
| Zones.ExpansionAt | suggestor.py:122-126 | entry `i*len(zones)+j` is name `i` with zone `j` (name-major, zone-minor) |
| Zones.ExpansionEntries | suggestor.py:122-126 | every expanded domain is some name with some zone |
| Zones.ExpansionHas | suggestor.py:122-126 | every name with every zone is in the expansion |
| Zones.ExpansionMembers | suggestor.py:122-126 | in the expansion exactly when some name with some zone |
| Zones.ExpandZones | suggestor.py:122-126 | the corrected nested loop builds exactly the intended expansion |
| Zones.SplitPieceIsItself | suggestor.py:124 | a zone without a comma splits to itself |
| Zones.LastPieceSplitsToItself | suggestor.py:124 | the last piece of the zone argument splits to itself |
| Zones.AsWrittenGrows | suggestor.py:123-125 | as written, the first name gets every zone and each later name only the last one |
| Zones.AttachEach | suggestor.py:124-125 | the inner loop attaches each piece and leaves `zone` bound to the last piece |
| Zones.ExpandZonesAsWritten | suggestor.py:122-126 | the shadowing loop as written builds exactly `ExpandAsWritten` |
| Zones.AsWrittenDropsZones | suggestor.py:122-126 | with two or more names and zones the loop as written yields `len(zones) + len(names) - 1` domains, fewer than intended |
| Zones.AsWrittenExample | suggestor.py:122-126 | names `a`, `b` with `com,net` give `a.com`, `a.net`, `b.net` as written |
| Zones.ExpansionExample | suggestor.py:122-126 | the same input, expanded as intended, also gives `b.com` |
| Distance.Osa | suggestor.py:139 | `edit_distance(s, d, transpositions=True)` itself: the optimal-string-alignment recurrence; properties below |
| Distance.OsaSelf | suggestor.py:139 | a string is at distance 0 from itself |
| Distance.OsaZeroMeansEqual | suggestor.py:139 | distance 0 means equal strings |
| Distance.OsaZeroIffEqual | suggestor.py:139 | distance 0 exactly when equal |
| Distance.OsaAtMostLonger | suggestor.py:139 | the distance is at most the longer length |
| Distance.OsaAtLeastGap | suggestor.py:139 | the distance is at least the difference of the lengths |
| Distance.OsaSymmetric | suggestor.py:139 | the distance is symmetric |
| Distance.CommonSuffixBound | suggestor.py:139 | a common ending never adds to the distance |
| Distance.OneSubstitution | suggestor.py:139 | strings differing in one character are at distance 1 |
| Distance.OneSwap | suggestor.py:139 | an adjacent transposition costs 1 (`ab` vs `ba`) |
| Distance.SubstitutedAt | suggestor.py:139 | equal-length strings differing only at one position are at distance 1 |
| Distance.SwapCostsOne | suggestor.py:138-139 | `Osa("ab", "ba") == 1` |
| Distance.CatDistances | suggestor.py:139 | `bat` and `cot` are at distance 1 from `cat`, and `dog` at least 1 |
| Sorting.InsertionSort | suggestor.py:145-153 | the reference stable sort the bubble sort is proved equal to |
| Sorting.Step | suggestor.py:147-151 | one comparison: swap `j` and `j + 1` when the left key is strictly greater |
| Sorting.ClassMembers | suggestor.py:145-153 | the class for key `v` holds exactly the elements with that key |
| Sorting.ClassConcat | suggestor.py:145-153 | the classes of a concatenation are concatenated |
| Sorting.InsertPermutes | suggestor.py:145-153 | inserting adds one element to the multiset |
| Sorting.InsertSorted | suggestor.py:145-153 | inserting into a sorted list keeps it sorted |
| Sorting.InsertClasses | suggestor.py:145-153 | inserting puts the new element first in its class |
| Sorting.InsertionSortSorted | suggestor.py:145-153 | the reference sort is sorted by the key |
| Sorting.InsertionSortClass | suggestor.py:145-153 | the reference sort keeps the order within each key |
| Sorting.InsertionSortPermutes | suggestor.py:145-153 | the reference sort is a permutation |
| Sorting.InsertionSortIsStableSort | suggestor.py:145-153 | the reference sort is sorted, a permutation, and stable |
| Sorting.SortedIsFixed | suggestor.py:145-153 | an input already in key order is left as it is |
| Sorting.FirstKeyIsLeast | suggestor.py:145-153 | in a sorted list the first key is the least |
| Sorting.HeadsAgree | suggestor.py:145-153 | two sorted lists with the same classes start alike |
| Sorting.StableSortUnique | suggestor.py:145-153 | a sorted list with the same per-key order is unique |
| Sorting.SwapKeepsClasses | suggestor.py:147-151 | swapping neighbours with different keys keeps every class |
| Sorting.SwapStepKeeps | suggestor.py:147-151 | a swap carries the greater key right and stays in front of the sorted tail |
| Sorting.StillStepKeeps | suggestor.py:147-148 | without a swap the greater key is already on the right |
| Sorting.PassEnds | suggestor.py:146-151 | after a pass the sorted tail grows by one |
| Sorting.Pass | suggestor.py:146-151 | one inner-loop pass grows the sorted tail by one and keeps every class |
| Sorting.BubbleSort | suggestor.py:145-153 | the bubble sort's result is sorted by key, a permutation, stable, and equal to the reference sort |
| Suggestor.StripAllSettles | suggestor.py:119-120 | on lines, the stripped names are prefixes of their domains, hold no line break, and stripping them again (the key at line 147, the final `map` at line 120) changes nothing |
| Suggestor.Dedup | suggestor.py:116-117 | `set(domains)` itself, listed in first-occurrence order |
| Suggestor.DedupIsSet | suggestor.py:116-117 | deduplication keeps every domain, once, and adds nothing |
| Suggestor.LevSort | suggestor.py:128-153 | `levsort` returns the stripped inputs, a permutation of them, sorted by distance and stable |
| Suggestor.Answer | suggestor.py:113-126 | `None` for an empty find, otherwise the chosen names, stripped, with every zone |
| Suggestor.Suggestions | suggestor.py:72-126 | `gen_domains` as one value: the answer for what the search collects |
| Suggestor.GenDomains | suggestor.py:72-126 | `gen_domains` returns exactly the modelled suggestions |
| Suggestor.FoundHasNoNewline | suggestor.py:101-107 | no candidate holds a line break |
| Suggestor.FoundIsLineFree | suggestor.py:98-111 | the collected candidates are all line-free |
| Suggestor.NoneIffNothingFound | suggestor.py:113-114 | `None` exactly when no permutation and no file let anything through |
| Suggestor.UnrankedShape | suggestor.py:119-126 | without ranking, entry `i*len(zones)+j` of the answer is found domain `i`, stripped, with zone `j` |
| Suggestor.RankedMembers | suggestor.py:141-153 | ranking neither adds nor loses a stripped name |
| Suggestor.RankedNameOrigin | suggestor.py:116-120 | a ranked name comes from a found domain and is free of zones |
| Suggestor.RankedOrderNameOrigin | suggestor.py:116-120 | a name ranked from any duplicate-free listing of the found domains is one of them stripped, and free of zones |
| Suggestor.RankedShapeForOrder | suggestor.py:116-153 | for any duplicate-free listing of the found domains, the ranked names are those domains stripped (a permutation), ordered by distance to the keyword, ties in the listing's order |
| Suggestor.RankedShape | suggestor.py:116-117 | the ranked names are the distinct found domains, stripped, ordered by distance to the keyword, ties in first-found order |
| Suggestor.StrippedNamesCanRepeat | suggestor.py:116-120 | a dot-free name found with two different zones survives deduplication twice, so the ranked names hold it twice |
| Suggestor.AbTwice | suggestor.py:116-120 | `ab.com` and `ab.net` both rank as `ab`, so `ab` appears twice |
| Suggestor.RankedInOrder | suggestor.py:145-153 | zone-free names already in distance order stay as they are |
| Suggestor.CatRanking | suggestor.py:128-153 | ranking `bat`, `cot`, `dog` against `cat` keeps `bat`, `cot` in order and `dog` last |
| Suggestor.ChosenNameOrigin | suggestor.py:116-120 | every chosen name, stripped, is a found domain stripped |
| Suggestor.ChosenNameOf | suggestor.py:116-120 | every found domain, stripped, is some chosen name |
| Suggestor.StrippedIsChosen | suggestor.py:116-120 | on the ranking path every stripped found domain is ranked, and stripping again changes nothing |
| Suggestor.AnswerFromFound | suggestor.py:116-126 | every suggestion is a found domain, stripped, with one requested zone |
| Suggestor.FoundInAnswer | suggestor.py:116-126 | every found domain, stripped, comes with every requested zone |
| Suggestor.AnswerMembers | suggestor.py:116-126 | a suggestion is exactly a stripped found domain with a requested zone |
| Suggestor.SuggestionsAre | suggestor.py:72-126 | for `gen_domains`, suggestions are exactly the stripped candidates with each requested zone |
| Suggestor.SuggestionsRanked | suggestor.py:116-117 | with ranking, the names are ordered by distance to the keyword |

## Left out

- The command line, keyword files, logging and the output file (`parse_cl`, `cli_process`, suggestor.py:24-70). These are I/O.
- `glob` and reading the corpus files (suggestor.py:87, 104-106). The corpus is a parameter holding the file contents. The source reads every file again for every permutation, which only affects performance.
- domains/parser.py is not part of this model. It scrapes the web to fill the corpus, and its requests run concurrently.
- Regular-expression metacharacters in fragments. The source does not escape fragments in the pattern; the model treats them as literal text.
- Exactly where the regex engine starts a match within a line. Only what `findall` returns is modelled.
- Negative n-gram lengths. `grams_length` is a `nat`.
- The `nltk` implementations of `ngrams` and `edit_distance`, which are replaced by the definitions here.
- Suggestor.Dedup: the iteration order of a Python `set` is CPython's hash order. `Dedup` fixes it to first occurrence for `GenDomains`. The ranking itself is proved for every duplicate-free listing (`Suggestor.RankedShapeForOrder`), so only the tie order of the end-to-end answer depends on this choice.
- Zones.StripZoneIdempotent: requires a string without line breaks. `$` also matches before a final line break, so `"x.com\n.net"` strips to `"x.com\n"` and then to `"x\n"`. Every candidate is a single line (`Suggestor.FoundIsLineFree`), so the engine never meets this case.
- Zones.StripZoneRemovesTrailingRun: stated for strings without line breaks, for the same reason.
- Distance.CatDistances: states only that `dog` is at least distance 1 from `cat`, not the exact 3. The ranking example needs nothing more.
- Suggestor.GenDomains: uses the corrected zone expansion (`Zones.ExpandZones`). The loop as written is modelled separately (`Zones.ExpandZonesAsWritten`); see Findings.
- Python 2 `filter` and `map` return lists; the model treats them as sequences.
- Python 2 `str` is a byte string. A model `char` stands for one byte of it. For non-ASCII names, `len`, the n-grams and the distance count bytes, and the model does not decode anything.

## Findings

| source | as written | input that shows it | evidently intended | confidence | as-written member | corrected member |
|---|---|---|---|---|---|---|
| suggestor.py:123-125 | `for zone in zone.split(','):` rebinds the zone argument, so after the first name `zone` holds only the last piece | names `a`, `b` with zone argument `com,net` give `a.com`, `a.net`, `b.net`; `b.com` is missing | every name with every requested zone, name-major (`a.com`, `a.net`, `b.com`, `b.net`) | not executed | Zones.ExpandZonesAsWritten, Zones.AsWrittenDropsZones, Zones.AsWrittenExample | Zones.ExpandZones, Zones.ExpansionAt, Zones.ExpansionExample |
