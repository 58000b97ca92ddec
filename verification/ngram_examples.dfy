/**
  The small corpus of the n-gram unit tests, tokenised: "I am Sam. Sam I am.
  I do not like green eggs and ham."
 */
module NgramExamples {
  import opened Wrappers
  import opened NgramCounting
  import opened NgramProbabilities
  import NgramCounts

  const First: seq<Word> := ["I", "am", "Sam", "."]
  const Second: seq<Word> := ["Sam", "I", "am", "."]
  const Third: seq<Word> := ["I", "do", "not", "like", "green", "eggs", "and", "ham", "."]
  const SimpleCorpus: seq<seq<Word>> := [First, Second, Third]

  lemma CorpusUnfolds(n: nat)
    ensures CorpusGrams(SimpleCorpus, n)
      == multiset(Windows(Pad(First), n)) + multiset(Windows(Pad(Second), n)) + multiset(Windows(Pad(Third), n))
  {
    assert SimpleCorpus[..2] == [First, Second];
    assert [First, Second][..1] == [First];
    assert [First][..0] == [];
    assert CorpusGrams([First], n) == multiset(Windows(Pad(First), n));
    assert CorpusGrams([First, Second], n) == CorpusGrams([First], n) + multiset(Windows(Pad(Second), n));
  }

  /** The corpus has 23 unigrams: each sentence's tokens plus its two markers. */
  lemma SimpleUnigramTotal()
    ensures |CorpusGrams(SimpleCorpus, 1)| == 23
  {
    CorpusSize(SimpleCorpus, 1);
    assert SimpleCorpus[..2] == [First, Second];
    assert [First, Second][..1] == [First];
    assert [First][..0] == [];
    assert TotalWindows([First], 1) == 6;
    assert TotalWindows([First, Second], 1) == 12;
  }

  /** The counter that skips the lone begin marker sees three unigrams fewer. */
  lemma SimpleSkippedTotal()
    ensures |Table(SimpleCorpus, 0, true)| == 20
  {
    SimpleUnigramTotal();
    CorpusSize(SimpleCorpus, 1);
    assert NoMarkerWords(SimpleCorpus) by {
      forall si, k | 0 <= si < |SimpleCorpus| && 0 <= k < |SimpleCorpus[si]|
        ensures SimpleCorpus[si][k] != Begin && SimpleCorpus[si][k] != End
      {
        assert si == 0 || si == 1 || si == 2;
      }
    }
    NgramCounts.SkippedUnigramTotal(SimpleCorpus);
  }

  /** The unigrams of a sequence are those of its prefix followed by its last word. */
  lemma UnigramsSnoc(words: seq<Word>)
    requires words != []
    ensures Windows(words, 1) == Windows(words[..|words| - 1], 1) + [[words[|words| - 1]]]
  {
    var m := |words| - 1;
    var init := words[..m];
    forall k | 0 <= k < m
      ensures Windows(words, 1)[k] == Windows(init, 1)[k]
    {
      assert init[k..k + 1] == words[k..k + 1];
    }
    assert Windows(words, 1)[m] == [words[m]];
  }

  /** A unigram occurs as often as its word does. */
  lemma {:induction false} UnigramCount(words: seq<Word>, x: Word)
    ensures multiset(Windows(words, 1))[[x]] == multiset(words)[x]
    decreases |words|
  {
    if words != [] {
      var m := |words| - 1;
      var init := words[..m];
      UnigramCount(init, x);
      UnigramsSnoc(words);
      assert words == init + [words[m]];
      assert multiset(Windows(words, 1)) == multiset(Windows(init, 1)) + multiset{[words[m]]};
      assert multiset(words) == multiset(init) + multiset{words[m]};
    }
  }

  /** A word found at exactly one position occurs once. */
  lemma OnceAt(xs: seq<Word>, i: nat, x: Word)
    requires i < |xs| && xs[i] == x
    requires forall k :: 0 <= k < |xs| && k != i ==> xs[k] != x
    ensures multiset(xs)[x] == 1
  {
    var before, after := xs[..i], xs[i + 1..];
    assert xs == before + [x] + after;
    assert x !in before by {
      forall k | 0 <= k < |before| ensures before[k] != x {
        assert before[k] == xs[k];
      }
    }
    assert x !in after by {
      forall k | 0 <= k < |after| ensures after[k] != x {
        assert after[k] == xs[i + 1 + k];
      }
    }
  }

  /** Each sentence of the corpus holds "I" once. */
  lemma FirstHoldsI()
    ensures multiset(Pad(First))["I"] == 1
  {
    var w := Pad(First);
    assert w == [Begin, "I", "am", "Sam", ".", End];
    OnceAt(w, 1, "I");
  }

  lemma SecondHoldsI()
    ensures multiset(Pad(Second))["I"] == 1
  {
    var w := Pad(Second);
    assert w == [Begin, "Sam", "I", "am", ".", End];
    OnceAt(w, 2, "I");
  }

  lemma ThirdHoldsI()
    ensures multiset(Pad(Third))["I"] == 1
  {
    var w := Pad(Third);
    assert w == [Begin, "I", "do", "not", "like", "green", "eggs", "and", "ham", ".", End];
    OnceAt(w, 1, "I");
  }

  /** "I" occurs three times among the 23 unigrams, so its probability is 3/23. */
  lemma UnigramI()
    ensures CorpusGrams(SimpleCorpus, 1)[["I"]] == 3
  {
    CorpusUnfolds(1);
    UnigramCount(Pad(First), "I");
    UnigramCount(Pad(Second), "I");
    UnigramCount(Pad(Third), "I");
    FirstHoldsI();
    SecondHoldsI();
    ThirdHoldsI();
  }

  /** The unigram table of the probability model gives "I" the ratio 3/23. */
  lemma UnigramIProbability()
    ensures var r := CalculateProbabilities([CorpusGrams(SimpleCorpus, 1)]);
      r.Success? && ["I"] in r.value[0] && r.value[0][["I"]] == Ratio(3, 23)
  {
    var counts := [CorpusGrams(SimpleCorpus, 1)];
    UnigramI();
    SimpleUnigramTotal();
    CountedRatiosAreProbabilities(counts, SimpleCorpus);
  }
}
