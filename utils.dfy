/**
 * The pairwise anagram test of utils.py. `is_anagram` compares lengths,
 * folds case unless proper nouns are respected, refuses a word compared with
 * itself, and balances a per-character counter over the zipped words.
 */
module AnagramUtils {
  import opened Text
  import Sequences

  /** A word as `is_anagram` compares it: lower-cased unless proper nouns are respected. */
  function Folded(w: string, respectProperNoun: bool): string {
    if respectProperNoun then w else Lower(w)
  }

  /**
   * What `is_anagram` decides: equal length, different words once folded, and
   * the same multiset of (folded) characters.
   */
  predicate AreAnagrams(word1: string, word2: string, respectProperNoun: bool) {
    var w1, w2 := Folded(word1, respectProperNoun), Folded(word2, respectProperNoun);
    |word1| == |word2| && w1 != w2 && multiset(w1) == multiset(w2)
  }

  /** Two words use the same letters, case-insensitively (their anagram signatures agree). */
  predicate SameLetters(a: string, b: string) {
    multiset(Lower(a)) == multiset(Lower(b))
  }

  /** How many more times `c` occurs in `x` than in `y`. */
  function Surplus(x: string, y: string, c: char): int {
    multiset(x)[c] as int - multiset(y)[c] as int
  }

  /** Extending both words by one character moves the surplus by at most one each way. */
  lemma SurplusStep(x: string, y: string, a: char, b: char, c: char)
    ensures Surplus(x + [a], y + [b], c)
         == Surplus(x, y, c) + (if c == a then 1 else 0) - (if c == b then 1 else 0)
  {
    assert multiset(x + [a]) == multiset(x) + multiset{a};
    assert multiset(y + [b]) == multiset(y) + multiset{b};
  }

  /** `char_count.get(c, 0)` */
  function Get(charCount: map<char, int>, c: char): int {
    if c in charCount then charCount[c] else 0
  }

  method IsAnagram(word1: string, word2: string, respectProperNoun: bool) returns (r: bool)
    ensures r == AreAnagrams(word1, word2, respectProperNoun)
  {
    if |word1| != |word2| {
      return false;
    }
    var w1, w2 := word1, word2;
    if !respectProperNoun {
      w1 := Lower(word1);
      w2 := Lower(word2);
    }
    if w1 == w2 {
      return false;
    }
    var charCount := CountCharacters(w1, w2);
    r := AllBalanced(charCount);
    if r {
      forall c ensures multiset(w1)[c] == multiset(w2)[c] {
        assert Get(charCount, c) == 0 == Surplus(w1, w2, c);
      }
      assert multiset(w1) == multiset(w2);
    } else {
      var c :| c in charCount && charCount[c] != 0;
      assert Surplus(w1, w2, c) != 0;
    }
  }

  /** The counting loop over `zip(word1, word2)`: one up for the first word, one down for the second. */
  method CountCharacters(w1: string, w2: string) returns (charCount: map<char, int>)
    requires |w1| == |w2|
    ensures forall c :: Get(charCount, c) == Surplus(w1, w2, c)
  {
    charCount := map[];
    var i := 0;
    while i < |w1|
      invariant 0 <= i <= |w1|
      invariant forall c :: Get(charCount, c) == Surplus(w1[..i], w2[..i], c)
    {
      var char1, char2 := w1[i], w2[i];
      charCount := charCount[char1 := Get(charCount, char1) + 1];
      charCount := charCount[char2 := Get(charCount, char2) - 1];
      forall c ensures Get(charCount, c) == Surplus(w1[..i + 1], w2[..i + 1], c) {
        assert w1[..i + 1] == w1[..i] + [char1] && w2[..i + 1] == w2[..i] + [char2];
        SurplusStep(w1[..i], w2[..i], char1, char2, c);
      }
      i := i + 1;
    }
    assert w1[..i] == w1 && w2[..i] == w2;
  }

  /** The final loop over the counter's keys, with its early `return False`. */
  method AllBalanced(charCount: map<char, int>) returns (r: bool)
    ensures r <==> forall c :: c in charCount ==> charCount[c] == 0
  {
    var pending := charCount.Keys;
    while pending != {}
      invariant pending <= charCount.Keys
      invariant forall c :: c in charCount && c !in pending ==> charCount[c] == 0
      decreases pending
    {
      var c :| c in pending;
      if charCount[c] != 0 {
        return false;
      }
      pending := pending - {c};
    }
    return true;
  }

  /** The test does not depend on the order of its two words. */
  lemma AnagramSymmetric(a: string, b: string, respectProperNoun: bool)
    ensures AreAnagrams(a, b, respectProperNoun) == AreAnagrams(b, a, respectProperNoun)
  {
  }

  /** Words of different length are never anagrams. */
  lemma DifferentLengthsNeverAnagrams(a: string, b: string, respectProperNoun: bool)
    requires |a| != |b|
    ensures !AreAnagrams(a, b, respectProperNoun)
  {
  }

  /**
   * A word is not its own anagram; without proper-noun handling neither is a
   * word that differs from it only in letter case.
   */
  lemma NotOwnAnagram(a: string, b: string, respectProperNoun: bool)
    requires a == b || (!respectProperNoun && Lower(a) == Lower(b))
    ensures !AreAnagrams(a, b, respectProperNoun)
  {
  }

  /** Rearranging a word and then folding it rearranges the folded word. */
  lemma {:induction false} LowerKeepsPermutation(a: string, b: string)
    requires multiset(a) == multiset(b)
    ensures multiset(Lower(a)) == multiset(Lower(b))
    decreases |a|
  {
    if a != [] {
      assert a[0] in b by {
        assert a[0] in multiset(a);
      }
      var k := Sequences.FirstIndex(b, a[0]);
      var rest := b[..k] + b[k + 1..];
      Sequences.PermutationWithout(a, b, k);
      LowerKeepsPermutation(a[1..], rest);
      LowerHead(a);
      LowerWithout(b, k);
    }
  }

  /** Folding a word is folding its first character and then the rest. */
  lemma LowerHead(a: string)
    requires a != []
    ensures multiset(Lower(a)) == multiset(Lower(a[1..])) + multiset{LowerChar(a[0])}
  {
    var folded := Lower(a);
    assert folded == [folded[0]] + folded[1..];
    assert Lower(a[1..]) == folded[1..];
  }

  /** Folding a word is folding it with one character taken out, plus that character folded. */
  lemma LowerWithout(b: string, k: nat)
    requires k < |b|
    ensures multiset(Lower(b)) == multiset(Lower(b[..k] + b[k + 1..])) + multiset{LowerChar(b[k])}
  {
    var folded := Lower(b);
    assert Lower(b[..k] + b[k + 1..]) == folded[..k] + folded[k + 1..];
    Sequences.MultisetWithout(folded, k);
  }

  /**
   * Respecting proper nouns makes the test case-sensitive and strictly
   * narrower: a case-sensitive anagram pair is also a case-insensitive one,
   * unless the two words fold to the same word.
   */
  lemma RespectingCaseIsStricter(a: string, b: string)
    requires AreAnagrams(a, b, true) && Lower(a) != Lower(b)
    ensures AreAnagrams(a, b, false)
  {
    LowerKeepsPermutation(a, b);
  }

  /** Without proper-noun handling the test is "same letters, different word once folded". */
  lemma AnagramsAreSameLetters(a: string, b: string)
    ensures AreAnagrams(a, b, false) <==> SameLetters(a, b) && Lower(a) != Lower(b)
  {
    if SameLetters(a, b) {
      SameLettersSameLength(a, b);
    }
  }

  /** Words with the same letters have the same length. */
  lemma SameLettersSameLength(a: string, b: string)
    requires SameLetters(a, b)
    ensures |a| == |b|
  {
    assert |Lower(a)| == |multiset(Lower(a))| == |multiset(Lower(b))| == |Lower(b)|;
  }

  /** With proper nouns respected "Dare" and "read" differ; folded they are anagrams. */
  lemma CaseDecidesWithProperNouns()
    ensures AreAnagrams("Dare", "read", false)
    ensures !AreAnagrams("Dare", "read", true)
  {
    var dare, read := Lower("Dare"), Lower("read");
    assert dare[0] == 'd' && dare[1] == 'a' && dare[2] == 'r' && dare[3] == 'e';
    assert dare == "dare";
    assert read == "read";
    assert multiset("dare") == multiset("read");
    assert 'D' in multiset("Dare") && 'D' !in multiset("read");
  }
}
