# Sentence autocomplete: two engines, modelled and verified in Dafny

The repository holds two independent editions of a sentence-autocomplete engine. Both take
a corpus of text lines and a typed prefix, and return up to five suggestions. A suggestion
is a stored sentence, its source file, its line number and a score. A sentence is a match
when its normalized text contains the normalized prefix (score `2 * len(prefix)`), or when
a window of it is one character substitution, insertion or deletion away from the prefix
(a smaller score, depending on the kind of edit and its position).

* **Engine A** (`autocomplete.py`) keeps the stored sentences in a list and builds an
  n-gram inverted index (`word_index`). Every word of every line is registered under its
  2-letter form, or under its substrings of length 3, 4 and 5. A query looks up the prefixes
  of its first word, falling back to every sentence when the index yields nothing. It then
  scans windows of length `lp - 1`, `lp` and `lp + 1` with the single-edit classifier
  `single_edit_match_info`. Finally it sorts the results by score and then by lower-cased
  sentence, removes repeated sentences and keeps five.
* **Engine B** (`initialize.py`, `autocomplete_logic.py`) stores every sentence in a
  character trie, under the path of its normalized text. A query collects every stored
  completion and runs `find_best_match` on each one. That function tries replacement, then
  deletion, then addition, at each start position from left to right. The results are
  scored with `calculate_score`, sorted by score and then by the case-sensitive sentence,
  and cut to five.

The two engines are modelled separately, because they really do differ:

* Engine A numbers lines from 0; Engine B numbers them from 1.
* Engine A breaks ties on the lower-cased sentence; Engine B on the sentence as written.
* Engine A removes repeated sentences; Engine B does not.
* Engine B scores a deletion match from `len(prefix) - 1`.

## Layout

| file | module | contents |
|---|---|---|
| `text.dfy` | `Text` | The string functions both engines use. These are ASCII `string.punctuation`, `str.lower`, `str.isspace`, `str.split`, `" ".join`, `str.strip`, `re.sub(r'\s+', ' ', …)`, substring `in` and Python's string order. |
| `option.dfy` | `Options` | `Option`, and the "map, keep the hits" loop shape (`FilterMap`) with its permutation lemmas. |
| `ranking.dfy` | `Ranking` | `AutoCompleteData`, the sort key of both engines (`RankLe`), and a stable insertion sort (`SortByRank`). |
| `autocomplete.dfy` | `AutoComplete` | Engine A's pure functions: `normalize_text`, `penalty_for` and `single_edit_match_info`. |
| `autocomplete_index.dfy` | `AutoCompleteIndex` | Engine A's `AutoCompleteSystem` class (`sentences`, `wordIndex`). It holds the per-line indexing body of `build_from_folder` and `get_best_k_completions`. |
| `initialize.dfy` | `Initialize` | Engine B's trie (`Trie`, `TrieNode`), `insert`, `search_for_completions`, `_collect_all_completions`, `normalize_text`, and the per-line insertion of `initialize_trie`. |
| `autocomplete_logic.dfy` | `AutoCompleteLogic` | Engine B's `calculate_score`, `find_best_match` and `get_best_k_completions`. |

The trie's nodes live in one sequence (`Trie.nodes`), and a child is referred to by its
index in that sequence. Replacing `nodes[k]` plays the part of mutating that Python node in
place. Ghost fields carry the proof state:

* `pathOf`, `parent` and `edge` give each node's path from the root.
* `entries` is the log of every `insert` call.

Two properties tie these to the nodes: `Initialize.TrieShape` and `Initialize.StoredOk`.

Engine A iterates over two Python sets: the candidate ids (`candidate_idxs`) and the window
lengths `{lp, lp + 1, lp - 1}`. Their order comes from hashing and is arbitrary to the
program. The model visits them in any order, chosen by `:|`, and proves every property for
every order. Engine B uses no set. Its dictionaries iterate in insertion order, so
`_collect_all_completions` visits a node's children in the order their characters were first
inserted. The model abstracts that order too: it visits children by `:|`, and specifies the
result of `search_for_completions` as a multiset.

## Model

| member | source | states |
|---|---|---|
| `Text.Lower` | autocomplete.py:28 | `str.lower` on one ASCII character. The result has no upper-case letter, keeps punctuation and whitespace class, shifts 'A'..'Z' by 32, and leaves every other character as it is. |
| `Text.RemovePunct` | autocomplete.py:9 | Dropping `string.punctuation` leaves only characters of the input that are not punctuation. An input with no punctuation is unchanged. |
| `Text.RemovePunctAppend` | initialize.py:83-84 | Punctuation is removed piece by piece: the result for s + t is the result for s followed by the result for t. |
| `Text.RemovePunctChar` | initialize.py:83-84 | A punctuation character is removed and any other character is kept. With `RemovePunctAppend` this fixes the result on every input. |
| `Text.LowerStr` | autocomplete.py:28 | `str.lower()`: `Lower` applied to every character. `AutoComplete.LowerStrOfLower`, `AutoComplete.RemovePunctLower` and `AutoComplete.NormalizeIgnoresCase` state what it does to normalization. |
| `Text.Words` | autocomplete.py:114 | `str.split()`: the maximal runs of non-whitespace characters, in order. `Text.WordsMeaning` states that each is non-empty and free of whitespace, and `Text.JoinWordsOfNormal` that re-joining the words of a normal string gives it back. |
| `Text.Join` | autocomplete.py:28 | `" ".join(ws)`: the words with one space between neighbours. `Text.JoinIsNormal` and `Text.JoinWordsOfNormal` state its properties. |
| `Text.CollapseSpaces` | initialize.py:86 | `re.sub(r'\s+', ' ', s)`: every run of whitespace becomes one space. `Text.CollapseStripIsSplitJoin` states that, stripped, it equals `" ".join(s.split())`. |
| `Text.WordsMeaning` | autocomplete.py:114 | Every word `str.split()` returns is non-empty, and holds only non-whitespace characters of the input. |
| `Text.JoinIsNormal` | autocomplete.py:28 | `" ".join` of clean words is in normal form. That means no punctuation, no upper case, only ' ' as whitespace, no leading or trailing space and no double space. |
| `Text.JoinWordsOfNormal` | autocomplete.py:28 | Splitting and re-joining a normal-form string gives it back. |
| `Text.Strip` | autocomplete.py:106 | `str.strip()` leaves no whitespace at either end. |
| `Text.StripMeaning` | autocomplete.py:106 | `str.strip()` returns one contiguous slice of its input, and everything of the input before and after that slice is whitespace. |
| `Text.CollapseStripIsSplitJoin` | initialize.py:86-87 | `re.sub(r'\s+', ' ', x).strip()` equals `" ".join(x.split())` for every x. |
| `Text.Diffs` | autocomplete.py:58 | The list comprehension of differing indices holds exactly the indices below n where the strings differ, in increasing order. |
| `Text.RemoveAt` | autocomplete_logic.py:70 | `s[:j] + s[j+1:]` is one character shorter. |
| `Text.Contains` | autocomplete.py:197 | Python's `p in s` holds exactly when p occurs at some offset of s. |
| `Text.LexLeTotal` | autocomplete.py:222 | Python's string order is total. |
| `Text.LexLeTransitive` | autocomplete.py:222 | Python's string order is transitive. |
| `Ranking.RankLeTotal` | autocomplete.py:222 | The key `(-score, sentence)` orders any two suggestions one way or the other. |
| `Ranking.RankLeTransitive` | autocomplete_logic.py:113 | The key `(-score, sentence)` is transitive. |
| `Ranking.InsertByRank` | autocomplete.py:222 | Inserting into a sorted list keeps it sorted, and adds exactly one occurrence of the element. |
| `Ranking.SortByRank` | autocomplete_logic.py:113 | `list.sort(key=…)` returns a sorted permutation of its input. |
| `Ranking.SortedPrefixIsTop` | autocomplete_logic.py:115 | The first k entries of a sorted list rank no lower than any entry the slice cuts off. |
| `AutoComplete.NormalizeText` | autocomplete.py:24-28 | The output is in normal form. |
| `AutoComplete.NormalizeFixesNormal` | autocomplete.py:24-28 | A string already in normal form is left unchanged. |
| `AutoComplete.NormalizeIdempotent` | autocomplete.py:24-28 | Normalizing twice equals normalizing once. |
| `AutoComplete.NormalizeIgnoresCase` | autocomplete.py:28 | Lower-casing the input first changes nothing. |
| `AutoComplete.NormalizeIgnoresPunctuation` | autocomplete.py:28 | Removing punctuation from the input first changes nothing. |
| `AutoComplete.RemovePunctLower` | autocomplete.py:28 | Removing punctuation and lower-casing commute. |
| `AutoComplete.PenaltyFor` | autocomplete.py:31-40 | Exact values for pos ≥ 1. Substitution gives 5,4,3,2,1 and then 1. Insertion and deletion give 10,8,6,4,2 and then 2. Any other kind gives 0. For pos from 0 down to -4 the tables are read from their end, as Python lists are: substitution gives 1 - pos, insertion and deletion 2 - 2*pos. |
| `AutoComplete.InsDelCostsTwiceSubstitution` | autocomplete.py:31-40 | At every position, insertion and deletion cost exactly twice a substitution, and more than it. |
| `AutoComplete.AdvanceWhileEqual` | autocomplete.py:64-66 | The `while` loop stops at the first disagreement or at the limit, and everything before it agrees. |
| `AutoComplete.SingleEditMatchInfo` | autocomplete.py:43-79 | `("exact", 0)` exactly when the strings are equal. None when the lengths differ by more than one. Each kind returned is sound: substitution differs only at p-1; insertion removes `candidate[p-1]` to give the prefix; deletion removes `prefix[p-1]` to give the candidate. |
| `AutoComplete.SubstitutionFound` | autocomplete.py:57-61 | A one-position difference is reported as a substitution at that position. |
| `AutoComplete.DiffsAtOnlyIndex` | autocomplete.py:58 | Strings that differ at one index only yield exactly that index. |
| `AutoComplete.AdvancePastAgreement` | autocomplete.py:64-66 | The scan gets past every position where the strings agree. |
| `AutoComplete.InsertionFound` | autocomplete.py:63-69 | A candidate that is the prefix plus one character is always reported. |
| `AutoComplete.DeletionFound` | autocomplete.py:71-77 | A candidate that is the prefix minus one character is always reported. |
| `AutoComplete.SingleEditComplete` | autocomplete.py:43-79 | The result is not None exactly when the strings are equal or one substitution, insertion or deletion apart. |
| `AutoCompleteIndex.Grams` | autocomplete.py:122-124 | The substrings `w[j:j+n]`, in order. |
| `AutoCompleteIndex.AllGramsMeaning` | autocomplete.py:122-124 | k is among the n-grams of w exactly when it has length n and occurs in w. |
| `AutoCompleteIndex.GramsOfLengthsMeaning` | autocomplete.py:126-129 | k is among the substrings of lengths lo..hi-1 exactly when it has such a length and occurs in w. |
| `AutoCompleteIndex.WordKeys` | autocomplete.py:117-129 | The keys one word is registered under, in the order the loops emit them. `AutoCompleteIndex.WordKeysMeaning` states them without the loops. |
| `AutoCompleteIndex.LineKeys` | autocomplete.py:116-129 | The keys of every word of a line, word after word. `AutoCompleteIndex.LineKeysMeaning` states its meaning. |
| `AutoCompleteIndex.KeysOf` | autocomplete.py:113-129 | The keys a stored sentence is registered under: those of the words of its normalized text. `AutoCompleteIndex.AddLineIndexes` states the index after each line with it. |
| `AutoCompleteIndex.Register` | autocomplete.py:119-129 | `word_index.setdefault(k, []).append(idx)` for each key in turn. `AutoCompleteIndex.RegisterMeaning` states that it keeps every key and id and adds idx exactly under the new keys. |
| `AutoCompleteIndex.WordKeysMeaning` | autocomplete.py:116-129 | A 2-letter word is registered under itself. Any other word is registered exactly under its substrings of length 3, 4 and 5. |
| `AutoCompleteIndex.ShortWordHasNoKeys` | autocomplete.py:116-129 | A one-letter word adds nothing to the index. |
| `AutoCompleteIndex.LineKeysMeaning` | autocomplete.py:116 | A line is registered under the keys of every one of its words, not only the first. |
| `AutoCompleteIndex.RegisterSnoc` | autocomplete.py:119 | `setdefault(k, []).append(idx)` for one more key. |
| `AutoCompleteIndex.RegisterGram` | autocomplete.py:122-124 | One more round of the n-gram loop registers idx under `w[j:j+n]`. |
| `AutoCompleteIndex.RegisterAppend` | autocomplete.py:116-129 | Registering two key lists one after the other is registering their concatenation. |
| `AutoCompleteIndex.RegisterMeaning` | autocomplete.py:116-129 | Registering keeps every key and id already there, and adds the new id exactly under the new keys. |
| `AutoCompleteIndex.RegisterKeepsExact` | autocomplete.py:110-129 | If the index lists exactly the stored sentences under their keys, it still does after one more line. In particular every registered id stays below `len(sentences)`. |
| `AutoCompleteIndex.AddLineIndexes` | autocomplete.py:110-129 | After a line, id is listed under k exactly when it was before, or when id is the new index and k is a key of one of the line's normalized words. |
| `AutoCompleteIndex.LineRecord` | autocomplete.py:105-111 | The record one line adds: none when blank after stripping, otherwise (stripped line, path, i). `AutoCompleteIndex.AutoCompleteSystem.AddLine` appends exactly it. |
| `AutoCompleteIndex.FileRecords` | autocomplete.py:105-111 | The records a file adds, in line order. `AutoCompleteIndex.FileRecordsMeaning` states them without the recursion. |
| `AutoCompleteIndex.FileRecordsSnoc` | autocomplete.py:105-111 | One more line of the file adds its stripped text if it is not blank. |
| `AutoCompleteIndex.FileRecordsMeaning` | autocomplete.py:105-111 | A file adds exactly one record per non-blank line: the stripped line, the path and the 0-based line number. |
| `AutoCompleteIndex.AllIds` | autocomplete.py:189 | `set(range(n))` holds exactly the ids below n. |
| `AutoCompleteIndex.RetryAddsNothing` | autocomplete.py:182-184 | The retry with `first_word[:3]` cannot add a candidate that the loop did not already find. |
| `AutoCompleteIndex.ProbeUpTo` | autocomplete.py:175-179 | The ids found under `first_word[:3]` to `first_word[:n]`. `AutoCompleteIndex.ProbeUpToMeaning` states its meaning. |
| `AutoCompleteIndex.Probe` | autocomplete.py:170-179 | The ids the index yields for the first word. `AutoCompleteIndex.ProbeMeaning` states its meaning. |
| `AutoCompleteIndex.CandidateSet` | autocomplete.py:170-189 | The index lookup, or every id when it yields nothing. `AutoCompleteIndex.CandidateMeaning` states its meaning. |
| `AutoCompleteIndex.ProbeGrows` | autocomplete.py:175-179 | Each round of the lookup loop only adds candidates. |
| `AutoCompleteIndex.ProbeUpToMeaning` | autocomplete.py:175-179 | The loop finds exactly the stored sentences that have one of `first_word[:3..n]` as a key. |
| `AutoCompleteIndex.ProbeMeaning` | autocomplete.py:170-179 | The index yields exactly the stored sentences keyed by the 2-letter first word, or by one of its first 3, 4 or 5 letters. |
| `AutoCompleteIndex.CandidateMeaning` | autocomplete.py:170-189 | Candidates are stored sentences. They are exactly those the index yields, or every sentence when it yields none. |
| `AutoCompleteIndex.WindowScore` | autocomplete.py:208-215 | A window that scores is exactly one edit away from the prefix. Its score lies in `[2*lp - 10, 2*lp)`. |
| `AutoCompleteIndex.FirstWindowScore` | autocomplete.py:207-217 | The first scoring window's score lies in `[2*lp - 10, 2*lp)`. |
| `AutoCompleteIndex.WindowScoreComplete` | autocomplete.py:208-211 | A window one edit away from the prefix always scores. With `WindowScore`, a window scores exactly when it is one edit away. |
| `AutoCompleteIndex.FirstWindowComplete` | autocomplete.py:207-217 | The scan from a start position reaches every window at or after it that is one edit away. |
| `AutoCompleteIndex.FirstWindowLeftmost` | autocomplete.py:207-217 | A hit is the score of the leftmost window that is one edit away: no earlier window is. |
| `AutoCompleteIndex.FirstHit` | autocomplete.py:207-217 | The score of the leftmost window of length L that is one edit away. `AutoCompleteIndex.FirstHitMeaning` and `AutoCompleteIndex.FirstWindowLeftmost` state its meaning. |
| `AutoCompleteIndex.FirstHitMeaning` | autocomplete.py:207-217 | There is a hit for length L exactly when some window of length L within the sentence is one edit away. |
| `AutoCompleteIndex.Matches` | autocomplete.py:197-220 | The sentence contains the prefix or has a hit. `AutoCompleteIndex.MatchesMeaning` states it without the scan. |
| `AutoCompleteIndex.MatchesMeaning` | autocomplete.py:197-220 | The scan keeps a sentence exactly when it contains the prefix or has a window of length lp-1, lp or lp+1 that is one edit away. |
| `AutoCompleteIndex.ScanWindows` | autocomplete.py:207-217 | The inner loop returns a score exactly when some window of length L is one edit away, and then the score of the leftmost one. |
| `AutoCompleteIndex.ScoreSentence` | autocomplete.py:197-220 | A sentence is kept exactly when it contains the prefix or some window of length lp-1, lp or lp+1 within it is one edit away. Its score is 2*lp when it contains the prefix, and otherwise the first hit of one window length, whatever order the set visits them in. |
| `AutoCompleteIndex.ScoreBounds` | autocomplete.py:197-215 | Every score lies in `[2*lp - 10, 2*lp]`. It equals 2*lp exactly when the sentence contains the prefix. |
| `AutoCompleteIndex.SentencesOfAppend` | autocomplete.py:226-230 | The sentences of a concatenation are the union of the sentences of its parts. |
| `AutoCompleteIndex.Dedup` | autocomplete.py:224-230 | Keeping the first occurrence of each sentence keeps only input elements and loses no sentence. The sentences kept are pairwise distinct. |
| `AutoCompleteIndex.DedupSorted` | autocomplete.py:222-230 | De-duplicating a sorted list leaves it sorted. |
| `AutoCompleteIndex.DedupPrefix` | autocomplete.py:226-232 | De-duplicating a prefix of the list gives a prefix of the de-duplicated list. |
| `AutoCompleteIndex.DedupStep` | autocomplete.py:227-230 | One more element is appended exactly when its sentence has not been seen. |
| `AutoCompleteIndex.DedupCovers` | autocomplete.py:222-230 | In a sorted list, every element's sentence is kept by an element that ranks no lower. |
| `AutoCompleteIndex.DroppedRanksLower` | autocomplete.py:222-232 | A result whose sentence is not among the returned five: the output is full and its fifth entry ranks no lower. |
| `AutoCompleteIndex.ShortKeepsAll` | autocomplete.py:224-232 | When fewer than five are returned, every sentence among the results is returned. |
| `AutoCompleteIndex.RankedTop` | autocomplete.py:222-234 | After sort, de-duplication and cut, the output has at most 5 distinct, sorted elements, all of them results. A short output holds every result sentence. Any result left out ranks no higher than the fifth. |
| `AutoCompleteIndex.TopDistinct` | autocomplete.py:224-234 | The `seen` and `break` loop returns the first five entries of the de-duplicated list. |
| `AutoCompleteIndex.DedupCut` | autocomplete.py:231-232 | Stopping at five distinct sentences, or at the end of the list, yields those five. |
| `AutoCompleteIndex.AutoCompleteSystem.constructor` | autocomplete.py:83-88 | Empty sentence list and index. |
| `AutoCompleteIndex.AutoCompleteSystem.AddLine` | autocomplete.py:105-129 | A blank line adds nothing. Any other line appends (stripped text, path, i) at index `len(sentences)` and registers that index under the line's keys. The index stays exact. |
| `AutoCompleteIndex.AutoCompleteSystem.IndexLine` | autocomplete.py:116-129 | Registers idx under the keys of every word and leaves `sentences` unchanged. |
| `AutoCompleteIndex.AutoCompleteSystem.IndexWord` | autocomplete.py:117-129 | Registers idx under the word's keys: the word itself if it has 2 letters, otherwise its 3-, 4- and 5-grams. |
| `AutoCompleteIndex.AutoCompleteSystem.IndexGrams` | autocomplete.py:122-129 | Registers idx under every n-gram of the word, left to right. |
| `AutoCompleteIndex.AutoCompleteSystem.LoadFile` | autocomplete.py:105-129 | A file appends exactly its non-blank lines, numbered from 0, and keeps the index exact. |
| `AutoCompleteIndex.AutoCompleteSystem.LookupCandidates` | autocomplete.py:166-189 | The candidate set equals the index lookup with its fallback to every sentence. |
| `AutoCompleteIndex.AutoCompleteSystem.FirstWordExists` | autocomplete.py:166 | A non-empty normalized prefix has a first word. |
| `AutoCompleteIndex.AutoCompleteSystem.QueryCandidates` | autocomplete.py:166-191 | Every candidate is the index of a stored sentence. |
| `AutoCompleteIndex.AutoCompleteSystem.ScoreCandidates` | autocomplete.py:193-220 | Over the candidates in any order, every result is a candidate's sentence, file and line with a score the scan may give it. Exactly one suggestion per candidate the scan keeps: the results pair one to one with distinct candidate ids, and those ids are exactly the kept candidates. |
| `AutoCompleteIndex.AutoCompleteSystem.PairedKeep` | autocomplete.py:196-220 | One loop round that keeps a candidate appends its one suggestion and its id, and the pairing holds again. |
| `AutoCompleteIndex.AutoCompleteSystem.ReportedFromIds` | autocomplete.py:193-220 | From the one-to-one pairing: every result comes from a candidate, and every kept candidate has its suggestion among the results. |
| `AutoCompleteIndex.AutoCompleteSystem.CoveredFromReported` | autocomplete.py:193-234 | A candidate whose suggestion was produced is answered, or the output is full and its fifth entry ranks no lower than that suggestion. |
| `AutoCompleteIndex.AutoCompleteSystem.GetBestKCompletions` | autocomplete.py:155-234 | An empty normalized prefix gives []. Otherwise the output has at most 5 entries with distinct sentences, sorted by score and then lower-cased sentence, and every entry is a scored candidate. Every matching candidate is answered, unless five entries that rank no lower were returned. |
| `Initialize.NormalizeText` | initialize.py:79-87 | The output is in normal form. |
| `Initialize.NormalizersAgree` | initialize.py:79-87 | Engine B's normalizer equals Engine A's on every input. |
| `Initialize.NormalizeIdempotent` | initialize.py:79-87 | Normalizing twice equals normalizing once. |
| `Initialize.AllData` | initialize.py:51 | The completions of the insertion log, one per insert call, in order. |
| `Initialize.DataUnder` | initialize.py:53-76 | The completions logged under a path that starts with p, in insertion order. `Initialize.DataUnderFiled` states which sentences these are. |
| `Initialize.Prefixed` | initialize.py:53-68 | The completions, in order, whose sentence after the normalizer starts with p: exactly those members of the input. |
| `Initialize.DataUnderFiled` | initialize.py:42-68 | When every insertion is filed under its sentence's normalized text, what lies under p is exactly the completions whose normalized sentence starts with p. |
| `Initialize.AllFiledAppend` | initialize.py:42-51 | Two filed insertion logs joined are filed. |
| `Initialize.InsertKeepsFiled` | initialize.py:42-51 | `insert` files its sentence under `normalize_text(sentence)`, so the log stays filed. |
| `Initialize.SearchFiled` | initialize.py:53-68 | A search result for p over a filed log holds exactly the completions whose normalized sentence starts with p. |
| `Initialize.DataUnderEmpty` | initialize.py:53-68 | Every stored completion lies under the empty path. |
| `Initialize.DataUnderSplit` | initialize.py:74-76 | What lies under a node is what is stored at it plus what lies below it through its children. |
| `Initialize.DataBelowAdd` | initialize.py:75-76 | Taking one more child adds exactly what lies under that child. |
| `Initialize.CollectedChild` | initialize.py:75-76 | After one more child the accumulator holds what lies below through all children taken so far. |
| `Initialize.AddChildShape` | initialize.py:46-47 | Adding a new child node for a missing character keeps the arena a trie. |
| `Initialize.StoreKeepsTrie` | initialize.py:51 | Appending a completion at a node keeps every node holding exactly what was inserted under its path. |
| `Initialize.Trie.constructor` | initialize.py:35-36 | A root alone, with nothing stored. |
| `Initialize.Trie.Walk` | initialize.py:58-61 | A successful walk ends at the node whose path is the walked string. |
| `Initialize.Trie.ChildPath` | initialize.py:46-48 | A child's path is its parent's path plus the edge character. |
| `Initialize.Trie.WalkReaches` | initialize.py:45-49 | Walking a node's path from the root reaches that node. |
| `Initialize.Trie.WalkFailsNothingStored` | initialize.py:58-63 | When the walk falls off the trie, no insertion is logged under a path that starts with p. |
| `Initialize.Trie.WalkPrefixFails` | initialize.py:59-63 | A walk that fails on q fails on every extension of q. |
| `Initialize.Trie.ChildrenCover` | initialize.py:75-76 | Every completion stored below a node is reachable through one of its children. |
| `Initialize.Trie.AddChild` | initialize.py:46-47 | `node.children[char] = TrieNode()`: a new empty node is added, and every edge and completion is kept. |
| `Initialize.Trie.Step` | initialize.py:46-48 | One step of the walk reaches the node for the path plus the character, and keeps every edge. |
| `Initialize.Trie.MakePath` | initialize.py:43-49 | The walk reaches the node whose path is the key, creating nodes as needed and keeping every edge. |
| `Initialize.Trie.Store` | initialize.py:51 | `node.completions.append(data)` changes only that node's list. Every other completion list is kept. |
| `Initialize.Trie.Insert` | initialize.py:38-51 | Logs one insertion with score 0. Walking `normalize_text(s)` then succeeds and ends at a node whose last completion is `(s, f, o, 0)`. No edge or completion is removed. |
| `Initialize.Trie.InsertAt` | initialize.py:43-51 | For the key `Insert` passes, `normalize_text(s)`: the walk then succeeds and ends at a node whose last completion is the data. One insertion is logged, and no edge or completion is removed. |
| `Initialize.Trie.SearchForCompletions` | initialize.py:53-68 | [] when the walk fails. In every case, as a multiset, exactly the completions logged under a path that starts with p. |
| `Initialize.Trie.SearchMeaning` | initialize.py:53-68 | On a log that `insert` built, a search for p finds exactly the stored completions whose normalized sentence starts with p, each as often as it was inserted. |
| `Initialize.Trie.SearchAllCount` | initialize.py:38-68 | Searching "" returns as many completions as insert calls were made. |
| `Initialize.Trie.CollectAllCompletions` | initialize.py:70-76 | Extends the accumulator with exactly the completions under the node's path, in any child order. |
| `Initialize.Trie.CollectChildren` | initialize.py:75-76 | The loop over `children.values()` adds exactly what lies strictly below the node. |
| `Initialize.Trie.InsertLine` | initialize.py:113-116 | A non-blank line is inserted stripped, with line number i + 1. A blank line inserts nothing. |
| `Initialize.Trie.InsertLines` | initialize.py:113-117 | A file's lines are inserted in order, one per non-blank line. |
| `Initialize.LineEntry` | initialize.py:113-116 | The insertion one line makes: none when blank after stripping, otherwise the stripped sentence under its normalized text, with line number i + 1. `Initialize.Trie.InsertLine` logs exactly it. |
| `Initialize.FileEntries` | initialize.py:113-117 | The insertions a file makes, in line order. `Initialize.Trie.InsertLines` logs exactly them. |
| `Initialize.FileEntriesFiled` | initialize.py:113-116 | Every insertion a file makes is filed under its sentence's normalized text. |
| `Initialize.FileEntriesSnoc` | initialize.py:113-116 | One more line adds at most its own insertion. |
| `AutoCompleteLogic.CalculateScore` | autocomplete_logic.py:6-37 | Type 1 loses 1 to 5 points, types 2 and 3 lose 2 to 10, and any other type loses nothing, from `2 * matched_length`. |
| `AutoCompleteLogic.PenaltiesAgree` | autocomplete_logic.py:6-37 | For pos ≥ 0 the penalty equals Engine A's `penalty_for` for the same kind: 5,4,3,2 then 1, and 10,8,6,4 then 2. |
| `AutoCompleteLogic.LaterCorrectionsCostLess` | autocomplete_logic.py:14-35 | Later positions never cost more. Addition and deletion cost the same, and twice a replacement. |
| `AutoCompleteLogic.FirstRemoval` | autocomplete_logic.py:66-80 | The smallest j whose removal turns x into y, if any. |
| `AutoCompleteLogic.ReplacementIn` | autocomplete_logic.py:55-64 | Returns a position exactly when the window differs from the prefix at exactly one index, p-1. |
| `AutoCompleteLogic.DeletionIn` | autocomplete_logic.py:66-72 | Returns a position exactly when removing some prefix character gives the window. p-1 is the smallest such index. |
| `AutoCompleteLogic.AdditionIn` | autocomplete_logic.py:74-80 | Returns a position exactly when removing some window character gives the prefix. p-1 is the smallest such index. |
| `AutoCompleteLogic.MatchAt` | autocomplete_logic.py:53-80 | One round of the outer loop: the replacement test, then deletion, then addition. `AutoCompleteLogic.MatchAtMeaning` states its meaning. |
| `AutoCompleteLogic.MatchAtMeaning` | autocomplete_logic.py:53-80 | A round returns exactly when some window at i is one edit away. What it returns explains that window. Replacement is preferred to deletion, and deletion to addition. |
| `AutoCompleteLogic.ScanFrom` | autocomplete_logic.py:53-82 | None exactly when no round from i on returns. Otherwise the result of the first round that does. |
| `AutoCompleteLogic.BestMatch` | autocomplete_logic.py:40-82 | `find_best_match` as a function: a direct match, then the rounds from the first character. `AutoCompleteLogic.BestMatchDirect`, `AutoCompleteLogic.BestMatchSound` and `AutoCompleteLogic.BestMatchNone` state what it returns. |
| `AutoCompleteLogic.BestMatchDirect` | autocomplete_logic.py:48-50 | (0, 0) exactly when the prefix is a substring of the sentence. |
| `AutoCompleteLogic.EmptyPrefixMatchesDirectly` | autocomplete_logic.py:48-50 | The empty prefix matches every sentence directly. |
| `AutoCompleteLogic.BestMatchSound` | autocomplete_logic.py:53-80 | A correction result is explained by a window at some start i, with no edit at any earlier start. |
| `AutoCompleteLogic.BestMatchNone` | autocomplete_logic.py:48-82 | None exactly when the prefix is not a substring and no window is one edit away. |
| `AutoCompleteLogic.CountDiffs` | autocomplete_logic.py:57-62 | `diff_count` is the number of differing indices, and `diff_pos` is the last of them plus one (-1 when there are none). |
| `AutoCompleteLogic.FindRemoval` | autocomplete_logic.py:66-80 | The inner `for j` loop returns the first removal that works. |
| `AutoCompleteLogic.TryWindows` | autocomplete_logic.py:54-80 | One round of the outer loop returns what `MatchAt` specifies. |
| `AutoCompleteLogic.FindBestMatch` | autocomplete_logic.py:40-82 | Returns exactly `BestMatch`, so every property above holds of it. |
| `AutoCompleteLogic.Scored` | autocomplete_logic.py:96-111 | The suggestion one stored completion yields, if `find_best_match` accepts it. `AutoCompleteLogic.ScoredMeaning` and `AutoCompleteLogic.ScoredAccepts` state its meaning. |
| `AutoCompleteLogic.ScoreAll` | autocomplete_logic.py:93-111 | The list the loop builds. `Options.FilterMapIn` states its members, and `AutoCompleteLogic.ScoreAllPermutation` its independence from input order. |
| `Options.FilterMapIn` | autocomplete_logic.py:95-111 | The loop keeps y exactly when some element of the input yields y. |
| `AutoCompleteLogic.ScoredMeaning` | autocomplete_logic.py:96-111 | A suggestion keeps the completion's sentence, source and offset. It scores 2*len(prefix) exactly when the prefix is a substring, and otherwise within 12 points below. |
| `AutoCompleteLogic.ScoredAccepts` | autocomplete_logic.py:96-97 | A completion is kept exactly when `find_best_match` accepts it. |
| `AutoCompleteLogic.ScoreAllPermutation` | autocomplete_logic.py:93-111 | Scoring a permutation of the completions gives a permutation of the results. |
| `AutoCompleteLogic.EmptyPrefixKeepsOne` | autocomplete_logic.py:95-104 | With an empty prefix a stored completion is returned unchanged, with score 0. |
| `AutoCompleteLogic.EmptyPrefixKeepsAll` | autocomplete_logic.py:95-111 | With an empty prefix every stored completion is kept, in order. |
| `AutoCompleteLogic.EmptyQueryKeepsEverything` | autocomplete_logic.py:90-111 | The empty query keeps every completion the trie stores. |
| `AutoCompleteLogic.TopFive` | autocomplete_logic.py:113-115 | The cut holds min(5, n) sorted entries taken from the completions. Every entry left out ranks no higher than the last kept. |
| `AutoCompleteLogic.ScoreCompletion` | autocomplete_logic.py:96-111 | One round of the loop: the matched length is one less for a deletion, and the result is scored by `calculate_score`. |
| `AutoCompleteLogic.ScoreCompletions` | autocomplete_logic.py:95-111 | The loop builds one suggestion per accepted completion, in order. |
| `AutoCompleteLogic.RankScored` | autocomplete_logic.py:113-115 | Sort and slice: min(5, n) sorted suggestions, no de-duplication. Every suggestion left out ranks no higher than the last kept, and every kept one is the scored copy of an accepted completion. |
| `AutoCompleteLogic.ScoredFrom` | autocomplete_logic.py:95-115 | Every entry drawn from the scored list is the scored copy of a completion that `find_best_match` accepts. |
| `AutoCompleteLogic.GetBestKCompletions` | autocomplete_logic.py:85-115 | Exactly min(5, n) entries, where n is the number of stored completions `find_best_match` accepts. The entries are sorted by score and then case-sensitive sentence, and drawn from those scored completions: each is the scored copy of a stored completion that `find_best_match` accepts. Every scored completion left out ranks no higher than the last entry. |

## Left out

- Directory walking, file opening and the `.txt` filter of `build_from_folder` and `initialize_trie` are I/O and are not modelled. A file is given as its sequence of lines (`LoadFile`, `InsertLines`).
- The gzip/pickle caches of both engines are serialisation of already-built state, so they are not modelled.
- `Initialize.py` (the sqlite edition) and `main.py` (the interactive demo) are not part of this model.
- `print` diagnostics and `sys.setrecursionlimit` are not modelled. A call depth limit is not a property of the algorithm.
- Unicode is reduced to ASCII: `str.lower` on 'A'..'Z', `isspace` on ASCII whitespace, and `string.punctuation`.
- Python set order is not modelled by hashing. Engine A's candidate ids and window lengths are visited in an arbitrary order chosen by `:|`, and every property holds for every order.
- Dictionary insertion order is abstracted. Trie children are visited in an arbitrary order chosen by `:|`, not in the order their characters were first inserted.
- The trie's nodes are an indexed arena instead of heap objects, so aliasing between nodes is not captured; each node is reachable through exactly one path.
- `AutoCompleteIndex.AutoCompleteSystem`'s invariant characterises the index by membership only: which ids are listed under which keys. How many times an id is listed, and in what order, is stated by `AddLine` for each call, not as an invariant.
- `Ranking.SortByRank`: the sort is written as a stable insertion sort, but stability is not stated; only sortedness and permutation are.
- `AutoCompleteIndex.AutoCompleteSystem.GetBestKCompletions`: because set order is arbitrary, the contract does not pin the output list. Which of two suggestions with equal keys comes first, and which score a sentence gets when several window lengths hit, are left open. It states distinctness, sortedness, where each entry comes from, and that nothing better was left out.
- `AutoCompleteLogic.GetBestKCompletions`: Engine B uses no set. Its output order is fixed by the trie's child-creation order and the stable sort. Because the model abstracts the child order, the output is stated as a sorted sub-multiset with the rank bound, not as an exact list: which of two entries with equal keys comes first is not stated.
- `Initialize.Trie.SearchForCompletions`: the returned list is in depth-first order over children in their insertion order. That order is abstracted, so the result is stated as a multiset only.
- `Initialize.Trie.SearchMeaning` requires that every logged insertion is filed under its sentence's normalized text. `insert` only logs such insertions (`Initialize.InsertKeepsFiled`, `Initialize.FileEntriesFiled`), but the fact is carried beside `Trie.Valid()` rather than inside it.
- `AutoComplete.PenaltyFor` requires pos ≥ -4 for a non-exact kind. Python raises `IndexError` below that, and the query only calls it with pos ≥ 1.
