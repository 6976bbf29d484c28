# fuser-search, modelled in Dafny

fuser-search is a client-side search script for a list of CMS items. Two
versions of the script exist side by side, and both are modelled here:

- **the newer script** (`fuser-search-script-test.js`) modelled by the `Rich*` modules
- **the older script** (`fuser-search-script.js`) modelled by the `Legacy*` modules

Modules shared by both:

- `Text`: ASCII lower-casing, `indexOf`, `includes` and `slice`.
- `Runs`: the maximal runs of a character class, which model `/\b\w+\b/g` and `split(/\s+/)`.
- `Filters`: `Array.prototype.filter`.
- `StableSort`: the stable `Array.prototype.sort`.
- `Markup`: highlighted text as plain and marked pieces, plus the strip that removes the markers.
- `ExcerptWindow`: the 40-characters-either-side excerpt window.
- `Paging`: page strips with ellipses.
- `QueryWords`: query words.
- `Accumulator`: the result `Map` as a fold of update events.
- `Passes`: the search passes as event lists.
- `Ranking`: the result comparator.

The model covers the following parts of the scripts:

- **Highlighting.**
  - The newer script highlights whole words in three tiers: exact, includes, and fuzzy by edit distance.
  - The older script highlights with a global, case-insensitive regular-expression replace.
- **Excerpts.** An excerpt is anchored at a matching word. It is cut to 40 characters either side, with `...` on each cut side, and then highlighted.
- **`searchSmart`.**
  - The query is split into words.
  - The passes run over the fuzzy index. In the newer script a pass over the records' text runs as well.
  - Each record gets one accumulated entry.
  - The newer script then splits the entries into strict and loose results.
  - Finally the results are ranked and sorted.
- **The re-sort in `updateList`.** Title matches come first, then description matches.
- **Pagination.** The strip of page buttons and ellipses.

The fuzzy index (Fuse.js) is a parameter. `index(q)` is the list of hits `fuse.search(q)` returns. The model proves what the scripts do with any such list.

The newer script keeps two maps, one for strict and one for loose results. Both receive exactly the same updates, so the model keeps one map and filters it twice.

## Model

| member | source | states |
|---|---|---|
| Levenshtein.ComputeDistance | fuser-search-script-test.js:119-136 | the matrix algorithm returns the recursive edit distance between the two strings |
| Levenshtein.DistanceSymmetric | fuser-search-script-test.js:119-136 | the distance from a to b equals the distance from b to a |
| Levenshtein.DistanceBounds | fuser-search-script-test.js:119-136 | the distance is at least the length difference and at most the longer length; from the empty string it is the other length |
| Levenshtein.DistanceZeroIff | fuser-search-script-test.js:119-136 | the distance is zero exactly when the strings are equal ignoring case |
| Levenshtein.DistanceIgnoresCase | fuser-search-script-test.js:126 | lower-casing either argument does not change the distance |
| Levenshtein.SingleSubstitution | fuser-search-script-test.js:124-133 | equal-length strings differing in one position are at distance 1 |
| Text.IndexOf | fuser-search-script.js:134 | the result is the first offset where the pattern occurs, and -1 exactly when it occurs nowhere |
| Text.Slice | fuser-search-script-test.js:301 | `slice` yields the characters between its ends; an end past the string stops at the string's end, and crossed ends yield nothing |
| Runs.Tokens | fuser-search-script-test.js:141-149 | every token is a maximal non-empty run of word characters, tokens come in text order with a gap between them |
| Runs.RunIsToken | fuser-search-script-test.js:141-149 | every maximal run of word characters is one of the tokens, so the scan misses no word |
| Runs.TokensComplete | fuser-search-script-test.js:141-149 | every word character of the text lies inside some token |
| FuzzyWindow.BestWindow | fuser-search-script-test.js:173-188 | the enumeration yields no window exactly when the word is shorter than two characters, and otherwise the window that is closest, then longest, then earliest |
| FuzzyWindow.ScanOptimal | fuser-search-script-test.js:178-188 | the double loop with the `dist < best or (equal and longer)` update keeps the best window enumerated so far |
| FuzzyWindow.OptimalUnique | fuser-search-script-test.js:182-186 | the tie-breaking makes the best window unique |
| FuzzyWindow.BestWithin | fuser-search-script-test.js:190 | the fuzzy tier accepts exactly when some window of the word is within the distance limit |
| RichHighlight.SpanFor | fuser-search-script-test.js:156-194 | the span one query yields for one word always lies inside that word |
| RichHighlight.SpanForTiers | fuser-search-script-test.js:159-194 | a query yields a span for a word exactly when the exact, includes or fuzzy tier holds |
| RichHighlight.ExactSpan | fuser-search-script-test.js:160-163 | a short query equal to the word ignoring case marks the whole word |
| RichHighlight.IncludesSpan | fuser-search-script-test.js:166-170 | the includes tier marks the query's length at its first case-insensitive occurrence in the word |
| RichHighlight.FuzzySpan | fuser-search-script-test.js:173-193 | the fuzzy tier applies only to queries of five or more characters and marks the optimal window when it is close enough |
| RichHighlight.FirstSpan | fuser-search-script-test.js:156-195 | a word takes the span of the first query in list order that yields one, and none only when no query does |
| RichHighlight.CollectExactly | fuser-search-script-test.js:153-196 | the collected spans are exactly the first spans of the words that have one |
| RichHighlight.CollectInOrder | fuser-search-script-test.js:153-196 | spans of words in text order are disjoint, in order and inside the text |
| RichHighlight.DropOverlaps | fuser-search-script-test.js:199-205 | the overlap filter never adds a span and always keeps the first one |
| RichHighlight.DropOverlapsKept | fuser-search-script-test.js:199-205 | a span survives exactly when it sits at a position that is first or starts no earlier than its array predecessor ends |
| RichHighlight.DropOverlapsKeepsAll | fuser-search-script-test.js:199-205 | the filter drops nothing exactly when no span starts before its predecessor ends |
| RichHighlight.DropOverlapsPredecessorOnly | fuser-search-script-test.js:201-205 | the filter compares with the predecessor in the array, so a span overlapping an earlier kept span can survive |
| RichHighlight.SpansInOrder | fuser-search-script-test.js:198-205 | the sort by index and the overlap filter leave the collected spans unchanged |
| RichHighlight.SpliceContent | fuser-search-script-test.js:208-217 | cutting the text at disjoint spans and reassembling the pieces gives the text back |
| RichHighlight.HighlightContent | fuser-search-script-test.js:139-219 | the pieces of the highlighted text spell the original text |
| RichHighlight.HighlightRoundTrip | fuser-search-script-test.js:207-218 | removing the highlight markers gives back the text, when the text has no `<` |
| RichHighlight.HighlightMarks | fuser-search-script-test.js:211-215 | the marked pieces are exactly the text of the found spans, one per matched word, in text order |
| RichHighlight.HighlightNothing | fuser-search-script-test.js:139-219 | with no queries, or no word characters, the text comes back unchanged |
| QueryWords.Fields | fuser-search-script-test.js:327-330 | the non-empty pieces of the trimmed, whitespace-split query are the maximal runs of non-space characters |
| QueryWords.Terms | fuser-search-script-test.js:327-331 | every search word is longer than the minimum length and is not a stop word |
| QueryWords.TermsExactly | fuser-search-script-test.js:327-331 | a word is a search word exactly when it is a piece of the lower-cased query passing both filters |
| QueryWords.TermsLowered | fuser-search-script-test.js:327-331 | search words are lower-case and contain no white space |
| QueryWords.ShortLongPartition | fuser-search-script-test.js:333-334 | short and long words split the words: each lands in exactly one list, as often as it occurs, in query order |
| RichExcerpt.PriorityPartition | fuser-search-script-test.js:234-240 | every word lands in exactly one of the high- and low-priority lists, as often as it occurs |
| RichExcerpt.AnyWindow | fuser-search-script-test.js:272-279 | the fuzzy comparison succeeds exactly when some query-length window of the word is within the distance limit |
| RichExcerpt.FindMatch | fuser-search-script-test.js:243-285 | the result is the start of the first description word some query qualifies for, and none exactly when no word qualifies |
| RichExcerpt.AnchorPriority | fuser-search-script-test.js:287-293 | a high-priority match anywhere wins over every low-priority match; the low-priority list is tried only when no high-priority word matches |
| RichExcerpt.AnchorFound | fuser-search-script-test.js:287-293 | the excerpt is anchored exactly when some search word qualifies for some description word, and then at a word start |
| RichExcerpt.ExcerptRoundTrip | fuser-search-script-test.js:295-311 | removing the markers from the excerpt gives back the window of the description |
| ExcerptWindow.Window | fuser-search-script-test.js:297-308 | the excerpt window is never longer than 80 characters plus two ellipses |
| ExcerptWindow.AnchoredWindow | fuser-search-script-test.js:297-303 | the anchored window is the slice from 40 characters before the anchor to 40 after, each end stopping at the description's edge, with `...` exactly on each side that was cut |
| ExcerptWindow.HeadWindow | fuser-search-script-test.js:304-308 | without an anchor the window is the first 80 characters, followed by `...` exactly when the description is longer |
| Accumulator.Lookup | fuser-search-script-test.js:346-356 | `has`/`get` find the position of the entry with the id, and fail exactly when no entry has it |
| Accumulator.ApplyShape | fuser-search-script-test.js:346-365 | one update changes only its own record's entry and appends one only for a new record; the map stays keyed by id |
| Accumulator.RunSound | fuser-search-script-test.js:336-478 | after any updates the map has one entry per record updated, each counted at least once with no more matched words than counts |
| Accumulator.RunFlag | fuser-search-script-test.js:360-365 | a flag, once raised, stays raised, and it is raised on exactly the records of the updates that raise it |
| Accumulator.RunMatched | fuser-search-script-test.js:359 | an entry's matched words are exactly the words of the updates about its record |
| Accumulator.RunKeepsScores | fuser-search-script-test.js:409-411 | updates that add no score leave every score sum as it was |
| Accumulator.RunKeepsMatched | fuser-search-script-test.js:458-461 | updates that carry no word leave every matched-word set as it was |
| Passes.IndexPass | fuser-search-script-test.js:340-389 | the long-word pass updates exactly the records the index returns, pairs each with its words, raises the title flag where the title contains the word and never the full flag |
| Passes.HaystackWordIds | fuser-search-script-test.js:393-396 | one short word updates exactly the records whose lower-cased serialised text contains it |
| Passes.HaystackWordTitles | fuser-search-script-test.js:412-417 | one short word raises the title flag exactly on the records whose title contains it |
| Passes.HaystackPassShape | fuser-search-script-test.js:392-441 | the short-word pass adds no score, never raises the full flag and pairs each record with the short words its text contains |
| Passes.FullPassShape | fuser-search-script-test.js:444-478 | the newer phrase pass updates exactly the records of its hits, raises the full flag on each and adds no word |
| RichSearch.AccumulateSound | fuser-search-script-test.js:336-478 | the map holds one entry per record any pass touched, each counted at least once, matching only search words |
| RichSearch.AccumulateMatched | fuser-search-script-test.js:340-441 | an entry's matched words are exactly the long words the index returned it for and the short words its text contains |
| RichSearch.AccumulateFlags | fuser-search-script-test.js:340-478 | an entry is a full match exactly when the whole query found it, and a title match exactly when a word found it with that word in its title |
| RichSearch.ShortPassKeepsScores | fuser-search-script-test.js:409-411 | the short-word pass never changes a score sum |
| RichSearch.FullPassKeepsMatched | fuser-search-script-test.js:458-461 | the phrase pass never adds a matched word |
| RichSearch.StrictLoose | fuser-search-script-test.js:480-489 | strict results matched every word, loose ones some but not every word, and no entry is in both |
| RichSearch.NoWordsAllStrict | fuser-search-script-test.js:480-489 | with no search words every entry is strict and none is loose |
| RichSearch.WordsDropPhraseOnly | fuser-search-script-test.js:480-491 | with search words, the results are exactly the entries that matched one; a phrase-only match is dropped |
| RichSearch.SearchOrdered | fuser-search-script-test.js:493-508 | the results are sorted by the comparator, a permutation of the ranked entries, and stable among equal keys |
| RichSearch.SearchMembers | fuser-search-script-test.js:491-500 | a result is the ranking of an entry that matched a word (any entry when there are no words), and its average is the true mean of the entry it ranks |
| RichSearch.RefineOrdered | fuser-search-script-test.js:553-568 | the re-sort orders title matches, then description matches, only permutes, and keeps the relevance order within each group |
| RichSearch.TitleMatchesFirst | fuser-search-script-test.js:554-558 | after the re-sort no title match follows a result whose title does not match |
| Ranking.CompareKeys | fuser-search-script-test.js:501-508 | the comparator is antisymmetric and orders lexicographically by title match, matched count (more first), full match, average score |
| Ranking.BeforeIsWeakOrder | fuser-search-script-test.js:501-508 | the comparator is a strict weak order, so the sort's result is well defined |
| Ranking.SortedResults | fuser-search-script-test.js:493-508 | sorting ranked results yields a sorted permutation that keeps map order among equal keys |
| StableSort.SortStable | fuser-search-script-test.js:566-567 | elements the order does not separate keep their original relative order |
| RichPagination.StripLayout | fuser-search-script-test.js:780-799 | the strip is page 1, `...` when c > 3, the pages around c, `...` when c < t - 2, page t; with four pages or fewer every page and no `...`; `...` appears exactly where numbering jumps |
| RichPagination.VisibleRun | fuser-search-script-test.js:780-788 | the inner pages shown form one contiguous run around the current page |
| RichPagination.PagesShown | fuser-search-script-test.js:780-791 | the first, last and current page are always shown, in increasing order |
| RichPagination.Buttons | fuser-search-script-test.js:751-762 | the previous button hides exactly on page 1 and the next button exactly on the last page |
| RichPagination.EllipsisHidesPage | fuser-search-script-test.js:794-799 | an ellipsis is drawn only after page 1 or before page t, and only where the neighbouring page is hidden |
| RichPagination.Mirrored | fuser-search-script-test.js:780-799 | the strip for page t + 1 - c is the mirror image of the strip for page c |
| RichPagination.ExampleMiddlePage | fuser-search-script-test.js:768-800 | on page 5 of 10 the strip reads 1 … 5 … 10 |
| LegacyHighlight.FirstMatch | fuser-search-script.js:120-121 | the alternation picks the first alternative in list order that matches at the position, ignoring case |
| LegacyHighlight.ScanContent | fuser-search-script.js:123 | the pieces of the replace spell out the text from every position on |
| LegacyHighlight.HighlightRoundTrip | fuser-search-script.js:118-124 | removing the markers gives back the text, when it has no `<` |
| LegacyHighlight.HighlightedAreWords | fuser-search-script.js:119-123 | every highlighted stretch is one of the words ignoring case; with no words every highlighted stretch is empty |
| LegacyHighlight.EmptyGroupEverywhere | fuser-search-script.js:121-123 | with no words the empty group matches at every position, the end included: one empty highlight per character plus one |
| LegacyHighlight.FirstNotLongest | fuser-search-script.js:121-123 | with `foo` listed before `foobar` only `foo` is highlighted in `foobar` |
| LegacyExcerpt.ExactFrom | fuser-search-script.js:132-140 | the exact phase picks the first word in list order found in the description ignoring case, and fails exactly when none is |
| LegacyExcerpt.PrefixFrom | fuser-search-script.js:143-154 | the prefix phase picks the first word in list order whose first three characters occur ignoring case |
| LegacyExcerpt.Anchor | fuser-search-script.js:127-154 | the anchor is an occurrence of a word or of a word's prefix, and there is none exactly when neither occurs |
| LegacyExcerpt.AnchorListOrder | fuser-search-script.js:132-140 | a word found whole wins over every later word and over every prefix |
| LegacyExcerpt.AnchorPrefixOrder | fuser-search-script.js:143-154 | when no word is found whole, the anchor is the first occurrence of the prefix of the first word, in list order, whose prefix occurs |
| LegacyExcerpt.Prefix | fuser-search-script.js:145 | the prefix is the word's first three characters, or the whole word when shorter |
| LegacyExcerpt.ExampleListOrder | fuser-search-script.js:132-140 | in `beta alpha` with words `alpha`, `beta` the anchor is 5: list order, not text order |
| LegacyExcerpt.ExcerptRoundTrip | fuser-search-script.js:156-172 | the window is at most 86 characters and removing the markers from the excerpt gives it back |
| LegacySearch.Words | fuser-search-script.js:181-191 | search words have at least three characters and are not among the 18 stop words |
| LegacySearch.PhrasePass | fuser-search-script.js:196-207 | after the phrase pass the map holds one bare full-match entry, counted once, per record the whole query found |
| LegacySearch.AccumulateSound | fuser-search-script.js:193-235 | the map holds one entry per record the query or a word found, each counted at least once, matching only search words |
| LegacySearch.AccumulateFlags | fuser-search-script.js:196-235 | full match exactly when the whole query found the record; title match and matched words exactly from the words that found it |
| LegacySearch.MeanRank | fuser-search-script.js:238-245 | the result keeps the entry's flags and record, counts its matched words, and its average times the count is the score sum |
| LegacySearch.MeanRanks | fuser-search-script.js:238-245 | every entry is ranked, and nothing else |
| LegacySearch.SearchResults | fuser-search-script.js:237-252 | every entry becomes a result, none dropped, sorted by the comparator and stable among equal keys |
| LegacySearch.PhraseOnlyKept | fuser-search-script.js:196-252 | a record found only by the whole query is still a result, with no matched word |
| LegacyPagination.VisibleRun | fuser-search-script.js:504-510 | the inner pages shown form one contiguous run around the current page |
| LegacyPagination.ShortLayout | fuser-search-script.js:504-520 | with four pages or fewer every page is shown and there is no ellipsis |
| LegacyPagination.FiveLayout | fuser-search-script.js:504-518 | with exactly five pages the strip as written is page 1, the run around c, page 5, with no ellipsis |
| LegacyPagination.FiveLosesEllipsis | fuser-search-script.js:516-518 | with five pages some pages are always hidden, yet the strip as written lacks an ellipsis there |
| LegacyPagination.ExampleFiveMiddle | fuser-search-script.js:504-518 | on page 3 of 5 the buttons read 1, 3, 5 with nothing between them |
| LegacyPagination.AsWrittenAgrees | fuser-search-script.js:516-518 | away from five pages the rule as written draws the corrected strip |
| LegacyPagination.FixedLongLayout | fuser-search-script.js:504-520 | with five pages or more the corrected strip is page 1, `...` when c > 2, the run, `...` when c < t - 1, page t |
| LegacyPagination.FixedHonest | fuser-search-script.js:504-520 | the corrected strip marks every run of hidden pages with one ellipsis, whatever the page count |
| LegacyPagination.PagesShown | fuser-search-script.js:504-513 | the first, last and current page are always among the buttons, of the strip as written and of the corrected strip, in increasing order |
| LegacyPagination.Buttons | fuser-search-script.js:475-486 | the previous button hides exactly on page 1 and the next button exactly on the last page |
| LegacyPagination.Mirrored | fuser-search-script.js:504-520 | the corrected strip for page t + 1 - c is the mirror image of the strip for page c |

## Left out

- The DOM, event listeners, debouncing, `updateData` and the rendering of results. The model starts from the records' fields and ends with strings and strips.
- Fuse.js itself. The index is a parameter returning any list of hits, so the properties hold for whatever Fuse returns.
- `JSON.stringify` of a record. Each record carries its serialised text (`haystack`) as a given string.
- Floating-point arithmetic. Scores are exact reals, so rounding, `NaN` and `Infinity` are not modelled. The older script would compute `NaN` for an entry never counted; `LegacySearch.AccumulateSound` proves no such entry exists.
- Unicode. Lower-casing is ASCII only and keeps the length.
- The older `getExcerpt` builds its prefix search with `new RegExp(prefix, "i")` without escaping. The model searches for the prefix as literal text. A prefix containing a regular-expression metacharacter, which can also throw, is outside the model.
- A record whose title is not a string. On such a record `toLowerCase` throws; the model's title is an optional string.
- The page slice `results.slice(start, end)` and the unclamped `currentPage` that the prev/next buttons can push out of range.
- RichPagination.StripLayout: stated for 1 <= currentPage <= totalPages, which the buttons maintain only while there is at least one page; with no results totalPages is 0 and the next button stays visible.
- RichPagination.PagesShown: stated for 1 <= currentPage <= totalPages only.
- RichPagination.Mirrored: stated for 1 <= currentPage <= totalPages only.
- LegacyPagination.FixedHonest: stated for 1 <= currentPage <= totalPages only.
- LegacyPagination.PagesShown: stated for 1 <= currentPage <= totalPages only.
- QueryWords.Fields: omits the single empty piece `split(/\s+/)` yields for an empty query; every caller's length filter (`length > 2`, `> 1`) drops it anyway.
- Text.Slice: the contract does not describe negative arguments, which count from the end; the scripts only pass non-negative ones.
- RichHighlight.HighlightRoundTrip: holds only for text without `<`. Text that already contains the marker strings cannot be told apart from inserted markers.
- LegacyHighlight.HighlightRoundTrip: holds only for text without `<`, for the same reason.
- RichExcerpt.ExcerptRoundTrip: holds only for descriptions without `<`.
- LegacyExcerpt.ExcerptRoundTrip: holds only for descriptions without `<`.

The newer `getExcerpt` passes the default distance 2 to `highlightWords`, not its own `maxDistance` (fuser-search-script-test.js:311). `RichExcerpt.GetExcerpt` does the same.

The overlap filter in `highlightWords` compares each span with its predecessor in the sorted array, not with the last span it kept (fuser-search-script-test.js:203). `RichHighlight.DropOverlaps` follows the code.

## Findings

| source | as written | input that shows it | evidently intended | confidence | as-written member | corrected member |
|---|---|---|---|---|---|---|
| fuser-search-script.js:516-518 | the ellipsis is drawn only when `totalPages > 5` | five pages, current page 3: buttons 1, 3, 5 with pages 2 and 4 hidden and no ellipsis | an ellipsis wherever pages are hidden, i.e. `totalPages > 4` as in the newer script | not executed | LegacyPagination.FiveLosesEllipsis | LegacyPagination.FixedHonest |
