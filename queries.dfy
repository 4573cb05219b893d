/**
 * The query layer of main.py, without its HTTP routing. The trie helpers it
 * calls (`get_anagrams`, `anagram_groups_generator`, `delete_word_from_trie`)
 * are not part of this model: what they return is passed in as a parameter.
 */
module AnagramQueries {
  import opened Wrappers
  import opened Text
  import opened Sequences
  import AnagramUtils

  /** The two ways a query ends without an answer. */
  datatype Error =
    | IndexError     // `word[0]` or `word_[0]` on an empty string
    | EmptyWordList  // the 422 "Provided list is empty"

  // ---------------------------------------------------------------------
  // get_anagrams_of_a_word

  /** `if word in anagrams: anagrams.remove(word)` */
  function WithoutWord(anagrams: seq<string>, word: string): (r: seq<string>)
    ensures word in anagrams ==> multiset(r) == multiset(anagrams) - multiset{word}
    ensures word in anagrams ==> IsSubsequence(r, anagrams) && |r| == |anagrams| - 1
    ensures word !in anagrams ==> r == anagrams
  {
    if word in anagrams then RemoveFirst(anagrams, word) else anagrams
  }

  /** `if limit: anagrams = anagrams[:limit]`; a limit of None or 0 is falsy. */
  function Limited(anagrams: seq<string>, limit: Option<int>): (r: seq<string>)
    ensures |r| <= |anagrams| && r == anagrams[..|r|]
    ensures limit.Some? && limit.value > 0 ==>
              |r| == if limit.value <= |anagrams| then limit.value else |anagrams|
    ensures limit.Some? && limit.value < 0 ==>
              |r| == if -limit.value <= |anagrams| then |anagrams| + limit.value else 0
    ensures limit == None || limit == Some(0) ==> r == anagrams
  {
    if limit.Some? && limit.value != 0 then PrefixSlice(anagrams, limit.value) else anagrams
  }

  predicate StartsWith(w: string, c: char) {
    |w| > 0 && w[0] == c
  }

  /** The selector of the proper-noun comprehension: first character equal to `c`. */
  function Initial(c: char): string -> bool {
    (w: string) => StartsWith(w, c)
  }

  /** The proper-noun filter runs: flag set, list non-empty, query word capitalised. */
  predicate FiltersProperNouns(word: string, anagrams: seq<string>, respectProperNoun: bool) {
    respectProperNoun && anagrams != [] && |word| > 0 && IsUpper(word[0])
  }

  /** The proper-noun step raises: `word[0]` or some `word_[0]` indexes an empty string. */
  predicate ProperNounIndexError(word: string, anagrams: seq<string>, respectProperNoun: bool) {
    respectProperNoun && anagrams != [] &&
    (|word| == 0 || (IsUpper(word[0]) && exists i :: 0 <= i < |anagrams| && anagrams[i] == ""))
  }

  /**
   * `get_anagrams_of_a_word` given the list `found` that the index returned
   * for `word`: drop the word itself once, apply the limit, then (when asked
   * and the query is capitalised) keep the entries that start with the same
   * character.
   */
  method GetAnagramsOfAWord(word: string, found: seq<string>, limit: Option<int>, respectProperNoun: bool)
    returns (result: Result<seq<string>, Error>)
    ensures var kept := Limited(WithoutWord(found, word), limit);
      && (result.Err? <==> ProperNounIndexError(word, kept, respectProperNoun))
      && (result.Err? ==> result.error == IndexError)
      && (result.Ok? && !FiltersProperNouns(word, kept, respectProperNoun) ==> result.value == kept)
      && (result.Ok? && FiltersProperNouns(word, kept, respectProperNoun) ==>
            result.value == Filter(kept, Initial(word[0])))
    ensures result.Ok? ==> IsSubsequence(result.value, Limited(WithoutWord(found, word), limit))
    ensures result.Ok? && limit.Some? && limit.value > 0 ==> |result.value| <= limit.value
    ensures result.Ok? && respectProperNoun && |word| > 0 && IsUpper(word[0]) ==>
              forall w :: w in result.value ==> StartsWith(w, word[0])
    ensures result.Ok? && respectProperNoun && |word| > 0 && IsUpper(word[0]) ==>
              forall w :: w in Limited(WithoutWord(found, word), limit) && StartsWith(w, word[0]) ==>
                w in result.value
  {
    var anagrams := found;
    if word in anagrams {
      anagrams := RemoveFirst(anagrams, word);
    }
    if limit.Some? && limit.value != 0 {
      anagrams := PrefixSlice(anagrams, limit.value);
    }
    ghost var kept := anagrams;
    SelfIsSubsequence(kept);
    if respectProperNoun && anagrams != [] {
      if |word| == 0 {
        return Err(IndexError);
      }
      if IsUpper(word[0]) {
        result := KeepProperNouns(anagrams, word[0]);
        ProperNounFilterExact(kept, word[0]);
        return;
      }
    }
    return Ok(anagrams);
  }

  /**
   * `[word_ for word_ in anagrams if word[0] == word_[0]]` with `word[0]` as
   * `initial`: the entries that start with it, or an `IndexError` at the
   * first empty entry.
   */
  method KeepProperNouns(anagrams: seq<string>, initial: char) returns (result: Result<seq<string>, Error>)
    ensures result.Err? <==> exists i :: 0 <= i < |anagrams| && anagrams[i] == ""
    ensures result.Err? ==> result.error == IndexError
    ensures result.Ok? ==> result.value == Filter(anagrams, Initial(initial))
  {
    var filtered := [];
    for i := 0 to |anagrams|
      invariant filtered == Filter(anagrams[..i], Initial(initial))
      invariant forall k :: 0 <= k < i ==> anagrams[k] != ""
    {
      var candidate := anagrams[i];
      if |candidate| == 0 {
        assert anagrams[i] == "";
        return Err(IndexError);
      }
      assert anagrams[..i + 1] == anagrams[..i] + [candidate];
      FilterSnoc(anagrams[..i], candidate, Initial(initial));
      assert Initial(initial)(candidate) <==> initial == candidate[0];
      if initial == candidate[0] {
        filtered := filtered + [candidate];
      }
    }
    assert anagrams[..|anagrams|] == anagrams;
    return Ok(filtered);
  }

  /**
   * The proper-noun filter keeps, in order, exactly the entries that start
   * with the given character.
   */
  lemma ProperNounFilterExact(anagrams: seq<string>, initial: char)
    ensures IsSubsequence(Filter(anagrams, Initial(initial)), anagrams)
    ensures forall w :: w in Filter(anagrams, Initial(initial)) <==> w in anagrams && StartsWith(w, initial)
  {
    FilterIsSubsequence(anagrams, Initial(initial));
    FilterCount(anagrams, Initial(initial));
  }

  /**
   * The limit is applied before the proper-noun filter: with limit 1 the
   * capitalised anagram in second place is cut off before it could be kept.
   */
  lemma LimitBeforeProperNounFilter()
    ensures Filter(Limited(["dare", "Daer"], Some(1)), Initial('D')) == []
    ensures Filter(["dare", "Daer"], Initial('D')) == ["Daer"]
  {
    assert Limited(["dare", "Daer"], Some(1)) == ["dare"];
    assert ["dare"][..0] == [];
    assert ["dare", "Daer"][..1] == ["dare"];
  }

  // ---------------------------------------------------------------------
  // delete_word_and_anagrams

  /**
   * `delete_word_and_anagrams`: the word itself, then each of its anagrams
   * as `get_anagrams_of_a_word` returns them with no limit and no proper-noun
   * filter, each handed to `delete_word` in that order. The trie is not part
   * of this model: `raising` holds the words whose `delete_word` raises, and
   * nothing catches that exception, so the first such call ends the loop.
   * `deleted` lists the calls that returned; `completed` says whether every
   * call did.
   */
  method DeleteWordAndAnagrams(word: string, found: seq<string>, raising: set<string>)
    returns (deleted: seq<string>, completed: bool)
    ensures var calls := [word] + WithoutWord(found, word);
      && |deleted| <= |calls| && deleted == calls[..|deleted|]
      && (forall w :: w in deleted ==> w !in raising)
      && (completed <==> deleted == calls)
      && (!completed ==> calls[|deleted|] in raising)
    ensures completed <==> word !in raising && forall w :: w in WithoutWord(found, word) ==> w !in raising
    ensures completed ==>
              multiset(deleted) == if word in found then multiset(found) else multiset(found) + multiset{word}
  {
    var response := GetAnagramsOfAWord(word, found, None, false);
    assert Limited(WithoutWord(found, word), None) == WithoutWord(found, word);
    assert !ProperNounIndexError(word, WithoutWord(found, word), false);
    assert !FiltersProperNouns(word, WithoutWord(found, word), false);
    var wordsToDelete := [word] + response.value;
    assert wordsToDelete == [word] + WithoutWord(found, word);
    deleted, completed := IssueDeletes(wordsToDelete, raising);
    DeletionsCovered(word, found, raising, deleted, completed);
  }

  /** What the issued deletes cover: every listed word, and the query word once more if absent. */
  lemma DeletionsCovered(word: string, found: seq<string>, raising: set<string>, deleted: seq<string>, completed: bool)
    requires var calls := [word] + WithoutWord(found, word);
      && |deleted| <= |calls| && deleted == calls[..|deleted|]
      && (forall w :: w in deleted ==> w !in raising)
      && (completed <==> deleted == calls)
      && (!completed ==> calls[|deleted|] in raising)
    ensures completed <==> word !in raising && forall w :: w in WithoutWord(found, word) ==> w !in raising
    ensures completed ==>
              multiset(deleted) == if word in found then multiset(found) else multiset(found) + multiset{word}
  {
    var calls := [word] + WithoutWord(found, word);
    if !completed {
      assert calls[|deleted|] in raising;
    }
    if completed {
      assert multiset(calls) == multiset{word} + multiset(WithoutWord(found, word));
    }
  }

  /**
   * The loop `for word_ in words_to_delete_from_storage: delete_word(word_)`:
   * the calls that return form a prefix of the list, and the first call
   * that raises ends the loop.
   */
  method IssueDeletes(wordsToDelete: seq<string>, raising: set<string>)
    returns (deleted: seq<string>, completed: bool)
    ensures |deleted| <= |wordsToDelete| && deleted == wordsToDelete[..|deleted|]
    ensures forall w :: w in deleted ==> w !in raising
    ensures completed <==> deleted == wordsToDelete
    ensures !completed ==> wordsToDelete[|deleted|] in raising
  {
    deleted := [];
    for i := 0 to |wordsToDelete|
      invariant deleted == wordsToDelete[..i]
      invariant forall w :: w in deleted ==> w !in raising
    {
      var word_ := wordsToDelete[i];
      if word_ in raising {
        // delete_word(word_) raises and the remaining deletes are never issued
        return deleted, false;
      }
      deleted := deleted + [word_];
    }
    assert wordsToDelete[..|wordsToDelete|] == wordsToDelete;
    completed := true;
  }

  // ---------------------------------------------------------------------
  // get_anagram_groups_of_size and get_largest_anagram_groups

  function SizeIs(size: int): seq<string> -> bool {
    (g: seq<string>) => |g| == size
  }

  /** The yielded groups with exactly `size` members, in generator order. */
  function OfSize(groups: seq<seq<string>>, size: int): seq<seq<string>> {
    Filter(groups, SizeIs(size))
  }

  /** The size of the largest group, 0 when nothing is yielded. */
  function MaxSize(groups: seq<seq<string>>): (m: nat)
    ensures forall i :: 0 <= i < |groups| ==> |groups[i]| <= m
    ensures groups != [] ==> exists i :: 0 <= i < |groups| && |groups[i]| == m
  {
    if groups == [] then 0
    else
      var m := MaxSize(groups[..|groups| - 1]);
      var last := |groups[|groups| - 1]|;
      if last > m then last else m
  }

  /**
   * `OfSize` keeps exactly the groups of the requested size, each as often
   * as it is yielded, in generator order.
   */
  lemma OfSizeExact(groups: seq<seq<string>>, size: int)
    ensures forall g :: g in OfSize(groups, size) ==> |g| == size
    ensures IsSubsequence(OfSize(groups, size), groups)
    ensures forall g :: multiset(OfSize(groups, size))[g] ==
              if |g| == size then multiset(groups)[g] else 0
  {
    FilterIsSubsequence(groups, SizeIs(size));
    FilterCount(groups, SizeIs(size));
  }

  /** `get_anagram_groups_of_size(size)` over the groups the generator yields. */
  method GetAnagramGroupsOfSize(groups: seq<seq<string>>, size: int) returns (anagrams: seq<seq<string>>)
    ensures anagrams == OfSize(groups, size)
  {
    anagrams := [];
    for i := 0 to |groups|
      invariant anagrams == OfSize(groups[..i], size)
    {
      assert groups[..i + 1] == groups[..i] + [groups[i]];
      FilterSnoc(groups[..i], groups[i], SizeIs(size));
      if |groups[i]| == size {
        anagrams := anagrams + [groups[i]];
      }
    }
    assert groups[..|groups|] == groups;
  }

  /**
   * `get_largest_anagram_groups`: a running maximum `last_size`, starting at
   * 0, and the groups of that size seen so far. The result is every yielded
   * group of the largest size.
   */
  method GetLargestAnagramGroups(groups: seq<seq<string>>) returns (anagrams: seq<seq<string>>)
    ensures anagrams == OfSize(groups, MaxSize(groups))
  {
    anagrams := [];
    var lastSize := 0;
    for i := 0 to |groups|
      invariant lastSize == MaxSize(groups[..i])
      invariant anagrams == OfSize(groups[..i], lastSize)
    {
      var group := groups[i];
      var groupSize := |group|;
      ghost var seen := groups[..i];
      assert groups[..i + 1] == seen + [group];
      if groupSize > lastSize {
        OfSizeAboveMax(seen, groupSize);
        GroupsSnoc(seen, group, groupSize);
        anagrams := [group];
        lastSize := groupSize;
      } else {
        GroupsSnoc(seen, group, lastSize);
        if groupSize == lastSize {
          anagrams := anagrams + [group];
        }
      }
    }
    assert groups[..|groups|] == groups;
  }

  /** One more yielded group: how the maximum and the groups of size `n` change. */
  lemma GroupsSnoc(groups: seq<seq<string>>, group: seq<string>, n: int)
    ensures MaxSize(groups + [group]) == if |group| > MaxSize(groups) then |group| else MaxSize(groups)
    ensures OfSize(groups + [group], n) == if |group| == n then OfSize(groups, n) + [group] else OfSize(groups, n)
  {
    assert (groups + [group])[..|groups|] == groups;
    FilterSnoc(groups, group, SizeIs(n));
  }

  /** No yielded group is larger than the maximum. */
  lemma OfSizeAboveMax(groups: seq<seq<string>>, n: int)
    requires n > MaxSize(groups)
    ensures OfSize(groups, n) == []
  {
    FilterNone(groups, SizeIs(n));
  }

  /**
   * The largest groups all have one size, no yielded group is larger, and
   * every yielded group of that size is returned, in generator order.
   */
  lemma LargestGroupsExact(groups: seq<seq<string>>)
    ensures forall g :: g in OfSize(groups, MaxSize(groups)) ==> |g| == MaxSize(groups)
    ensures forall i :: 0 <= i < |groups| ==> |groups[i]| <= MaxSize(groups)
    ensures forall i :: 0 <= i < |groups| && |groups[i]| == MaxSize(groups) ==>
              groups[i] in OfSize(groups, MaxSize(groups))
    ensures IsSubsequence(OfSize(groups, MaxSize(groups)), groups)
    ensures groups != [] ==> OfSize(groups, MaxSize(groups)) != []
  {
    var m := MaxSize(groups);
    OfSizeExact(groups, m);
    forall i | 0 <= i < |groups| && |groups[i]| == m ensures groups[i] in OfSize(groups, m) {
      assert multiset(OfSize(groups, m))[groups[i]] == multiset(groups)[groups[i]] > 0;
    }
  }

  // ---------------------------------------------------------------------
  // are_words_anagrams

  /** `all(len(word) == length for word in words_iter)` */
  function AllOfLength(words: seq<string>, length: nat): (b: bool)
    ensures b <==> forall i :: 0 <= i < |words| ==> |words[i]| == length
  {
    words == [] || (|words[0]| == length && AllOfLength(words[1..], length))
  }

  /**
   * `are_words_anagrams` given the list `pivotAnagrams` that `get_anagrams`
   * returns for the first word on a trie built from `words` alone.
   */
  function AreWordsAnagrams(words: seq<string>, pivotAnagrams: seq<string>): (r: Result<bool, Error>)
    ensures r.Err? <==> words == []
    ensures r.Err? ==> r.error == EmptyWordList
    ensures words != [] && (exists i :: 0 <= i < |words| && |words[i]| != |words[0]|) ==> r == Ok(false)
    ensures words != [] && (forall i :: 0 <= i < |words| ==> |words[i]| == |words[0]|) ==>
              r == Ok(|pivotAnagrams| == |words|)
  {
    if words == [] then Err(EmptyWordList)
    else if !AllOfLength(words[1..], |words[0]|) then Ok(false)
    else Ok(|pivotAnagrams| == |words|)
  }

  /** A word list with one word of another length is rejected before the pivot is consulted. */
  lemma UnequalLengthsRejected(pivotAnagrams: seq<string>)
    ensures AreWordsAnagrams(["read", "ared", "daer", "dare", "AAA"], pivotAnagrams) == Ok(false)
  {
    var words := ["read", "ared", "daer", "dare", "AAA"];
    assert |words[4]| != |words[0]|;
  }

  /**
   * Why one pivot suffices: if the index answers for the pivot with the
   * distinct input words that share its letters, the cardinality test holds
   * exactly when the input repeats no word and every word has the pivot's
   * letters.
   */
  lemma PivotDecidesMutualAnagrams(words: seq<string>, pivotAnagrams: seq<string>)
    requires words != []
    requires Distinct(pivotAnagrams)
    requires forall w :: w in pivotAnagrams <==> w in words && AnagramUtils.SameLetters(w, words[0])
    ensures AreWordsAnagrams(words, pivotAnagrams) == Ok(true) <==>
              Distinct(words) && forall w :: w in words ==> AnagramUtils.SameLetters(w, words[0])
  {
    ElementsCard(words);
    ElementsCard(pivotAnagrams);
    var small, big := Elements(pivotAnagrams), Elements(words);
    assert small <= big;
    if AreWordsAnagrams(words, pivotAnagrams) == Ok(true) {
      if small != big {
        StrictSubsetCard(small, big);
      }
      assert forall w :: w in words ==> w in big;
    }
    if Distinct(words) && forall w :: w in words ==> AnagramUtils.SameLetters(w, words[0]) {
      assert forall x :: x in small <==> x in big;
      assert small == big;
      forall i | 0 <= i < |words| ensures |words[i]| == |words[0]| {
        AnagramUtils.SameLettersSameLength(words[i], words[0]);
      }
    }
  }
}
