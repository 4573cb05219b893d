# Anagram words API: the anagram test and the query layer

A model in Dafny of the logic of a small word-storage web service that answers
anagram queries. Two parts are modelled:

- `utils.py`'s `is_anagram` (module `AnagramUtils`): the pairwise test that
  rejects words of different length, folds case unless proper nouns are
  respected, rejects a word compared with itself, and balances a
  per-character counter over the two words. It is an imperative method whose
  counting loop and key loop carry their invariants. It is proved equal to
  "same length, different once folded, same multiset of characters".
- The query bodies of `main.py` (module `AnagramQueries`), without the HTTP
  layer:
  - `get_anagrams_of_a_word`: removes the word itself, applies the limit, then the proper-noun filter.
  - `get_largest_anagram_groups`: keeps a running maximum.
  - `get_anagram_groups_of_size`.
  - `are_words_anagrams`: rejects an empty list, short-circuits on lengths, then compares the pivot's group size with the input size.
  - `delete_word_and_anagrams`: builds the list of words to delete.

The trie helpers that `main.py` imports (`get_anagrams`, `anagram_groups_generator`,
`delete_word_from_trie`, `add_to_trie`, `trie_to_list_of_lengths`) are not part of
this model. Their results are parameters:
- `found` is the list `get_anagrams` returns for the query word.
- `groups` is the sequence of groups the generator yields, each as a list.
- `pivotAnagrams` is the list `get_anagrams` returns for the first word on a trie built from the input words.

The query functions are proved correct for every value of these inputs.

Supporting modules:
- `Wrappers`: `Option` and `Result`.
- `Text`: ASCII `lower` and `isupper`.
- `Sequences`: a generic filter, subsequences, `list.remove`, the slice `s[:n]` with Python's handling of negative `n`, and distinctness/cardinality facts.

Points where the code's behaviour is easy to misread:

- `main.py:84-90` applies `limit` before the proper-noun filter. So with a limit, the result can be shorter than the limit even when more matching anagrams exist (`LimitBeforeProperNounFilter`).
- `main.py:84` tests `if limit:`. A limit of `0` leaves the list whole. A negative limit drops entries from the end, as Python slicing does.
- `main.py:89-90` indexes `word[0]` and every `word_[0]`. An empty query word or an empty entry therefore raises `IndexError`, which the model returns as `Err(IndexError)`. This happens only when the filter is requested and the list is non-empty.
- `get_largest_anagram_groups` starts `last_size` at 0. Any empty groups the generator yields are kept until a non-empty group appears. If every group is empty, all of them are returned. In every case the result is exactly the yielded groups of the largest size (`GetLargestAnagramGroups`).
- The task list at `main.py:13` promises "anagram groups of size >= x", but `get_anagram_groups_of_size` keeps groups whose size equals `size` exactly (`main.py:128`). The model follows the code (`OfSize`).
- `delete_word_and_anagrams` does not catch exceptions (`main.py:173-174`). A `delete_word` that raises ends the loop, and the remaining deletes are never issued (`DeleteWordAndAnagrams`).

## Model

| member | source | states |
|---|---|---|
| `AnagramUtils.IsAnagram` | utils.py:8-40 | the answer is true exactly when the words have equal length, differ after (optional) case folding, and have the same multiset of (folded) characters |
| `AnagramUtils.CountCharacters` | utils.py:30-34 | after the loop over the zipped words, `char_count.get(c, 0)` is the number of `c` in the first word minus the number in the second, for every character |
| `AnagramUtils.AllBalanced` | utils.py:36-40 | the key loop answers true exactly when every counter is zero |
| `AnagramUtils.AnagramSymmetric` | utils.py:11-40 | swapping the two words never changes the answer |
| `AnagramUtils.DifferentLengthsNeverAnagrams` | utils.py:11-12 | words of different length are never anagrams |
| `AnagramUtils.NotOwnAnagram` | utils.py:18-25 | a word is not its own anagram; without proper-noun handling neither is a word that differs only in letter case |
| `AnagramUtils.LowerKeepsPermutation` | utils.py:18-20 | lower-casing two words that are rearrangements of each other gives two rearrangements of each other |
| `AnagramUtils.RespectingCaseIsStricter` | utils.py:18-20 | every case-sensitive anagram pair is also a case-insensitive one, unless the two words fold to the same word |
| `AnagramUtils.AnagramsAreSameLetters` | utils.py:18-40 | with case folding, "anagram" is exactly "same letters case-insensitively and different once folded" |
| `AnagramUtils.CaseDecidesWithProperNouns` | utils.py:18-20 | "Dare" and "read" are anagrams when case is folded and are not when proper nouns are respected |
| `Text.Lower` | utils.py:19-20 | lower-casing keeps the length and maps each character on its own: an upper-case ASCII letter to its lower-case form, every other character to itself |
| `Sequences.RemoveFirst` | main.py:81-82 | `list.remove` drops exactly one occurrence, the first one, keeping the rest in order |
| `Sequences.PrefixSlice` | main.py:85 | `s[:n]` is a prefix of `s`, of length `min(n, len(s))` for `n >= 0` and `max(0, len(s) + n)` for negative `n` |
| `AnagramQueries.WithoutWord` | main.py:80-82 | if the query word is in the list, exactly one occurrence is removed and the rest keep their order; otherwise the list is unchanged |
| `AnagramQueries.Limited` | main.py:84-85 | the result is always a prefix of the list; a positive limit keeps at most `limit` entries; a negative one drops `-limit` entries from the end, or all of them; a limit of None or 0 leaves the list whole |
| `AnagramQueries.KeepProperNouns` | main.py:90 | the comprehension keeps exactly the entries starting with the query's first character, and fails with `IndexError` exactly when an entry is empty |
| `AnagramQueries.ProperNounFilterExact` | main.py:89-90 | the proper-noun filter keeps, in order, every entry that starts with the given character, and no other |
| `AnagramQueries.GetAnagramsOfAWord` | main.py:73-92 | the result is a subsequence of the limited list without the query word; it is no longer than a positive limit; when filtering applies it holds exactly the entries with the query's capital initial; it fails only on an empty query word or entry under the filter |
| `AnagramQueries.LimitBeforeProperNounFilter` | main.py:84-90 | truncation runs before the filter, so a matching entry past the limit is lost |
| `AnagramQueries.DeleteWordAndAnagrams` | main.py:169-174 | deletes are issued first for the word, then for each anagram in returned order; the calls that return form a prefix of that list; the first raising call stops the loop; when none raises, every listed entry and the word itself are deleted once |
| `AnagramQueries.IssueDeletes` | main.py:173-174 | the delete loop issues calls in list order; the calls that return form a prefix of the list and none of them raises; the loop either completes the whole list or stops at the first call that raises |
| `AnagramQueries.GetAnagramGroupsOfSize` | main.py:124-130 | the loop returns exactly the groups of the given size, in generator order |
| `AnagramQueries.OfSizeExact` | main.py:126-130 | every returned group has the requested size; every yielded group of that size is returned as often as it is yielded; generator order is kept |
| `AnagramQueries.MaxSize` | main.py:113-119 | the running maximum is at least every group's size and, when any group is yielded, equals one of them |
| `AnagramQueries.GetLargestAnagramGroups` | main.py:110-121 | the running-maximum loop returns exactly the groups of the largest yielded size, in generator order |
| `AnagramQueries.LargestGroupsExact` | main.py:112-121 | all returned groups share one size, no yielded group is larger, every group of that size is returned in order, and the result is non-empty when anything was yielded |
| `AnagramQueries.AllOfLength` | main.py:150-152 | the `all(...)` test holds exactly when every remaining word has the first word's length |
| `AnagramQueries.AreWordsAnagrams` | main.py:133-166 | an empty list is an error and never a boolean; any length mismatch gives false; otherwise the answer is whether the pivot's anagram list has as many entries as the input |
| `AnagramQueries.UnequalLengthsRejected` | main.py:147-153 | the word list with "AAA" among four-letter words is rejected by the length test, whatever the pivot's group is |
| `AnagramQueries.PivotDecidesMutualAnagrams` | main.py:155-166 | if the pivot's group is the distinct input words sharing its letters, the cardinality test holds exactly when no word repeats and all words share the pivot's letters |

## Left out

- Trie helpers (`get_anagrams`, `add_to_trie`, `trie_to_list_of_lengths`, `delete_word_from_trie`, `anagram_groups_generator`): they are not part of this model. Their results are inputs.
- `add_words`, `delete_word` and `delete_all_words` (main.py:55-69): each only forwards to a trie helper or resets the global storage.
- `get_storage_stats` (main.py:98-107): it is a thin wrapper over `trie_to_list_of_lengths`. `median` and `average` are floating point.
- `get_storage`, `load_storage` and the global `app.storage` (utils.py:2-5, main.py:37-49): file I/O and shared process state.
- FastAPI routing, status codes and `HTTPException`: the 422 for an empty list is the `EmptyWordList` error.
- `words.get('words', [])` (main.py:138): `AreWordsAnagrams` takes the list itself. A request without the key behaves as the empty list, which is the modelled error case.
- `DeleteWordAndAnagrams`: it returns the `delete_word` calls that returned rather than changing a trie. Which calls raise is an input (`raising`, a set of words), so a word whose delete would succeed once and raise on a repeat is not modelled. The effect of each delete, including the caveat at main.py:62, belongs to the unmodelled trie.
- `WithoutWord`: `anagrams.remove(word)` (main.py:82) changes the list that `get_anagrams` returned in place. The model treats lists as values, so it assumes `get_anagrams` returns a fresh list. If that list were the trie's own, the query would also change the storage, and the model does not show this.
- `PivotDecidesMutualAnagrams`: it holds under an assumption about how the trie groups words, namely that the pivot's group is the distinct input words with the pivot's case-folded letters. That assumption is stated as its precondition, not proved.
- `Text.Lower`: `str.lower` and `str.isupper` are modelled on ASCII only. Non-ASCII characters are left unchanged and never count as upper case. Python characters whose lower-case form is longer than one character are therefore not modelled, and neither is the resulting truncation by `zip`.
- `AnagramUtils.AllBalanced`: it visits the counter's keys in an arbitrary order, while Python uses insertion order. The answer does not depend on the order.
