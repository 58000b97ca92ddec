/**
  The counting n-gram model: its tables hold raw counts rather than ratios,
  and its counter never records the begin marker as a unigram on its own.
  Every other window, bigrams that start with the begin marker included, is
  counted exactly as by the probability model's counter.
 */
module NgramCounts {
  import opened Wrappers
  import opened NgramCounting

  /**
    Counting with the lone begin marker skipped: the text must not mention a
    marker; otherwise there is one table per order 1..order (none when the
    order is not positive), table 0 is the corpus unigrams without the begin
    marker, and every higher table is the full corpus count.
   */
  method Count(text: string, sentences: seq<seq<Word>>, order: int) returns (r: Result<seq<multiset<Gram>>, NgramError>)
    ensures r.Failure? <==> ContainsMarker(text)
    ensures r.Failure? ==> r.error == MarkerInText
    ensures r.Success? ==> |r.value| == if order > 0 then order else 0
    ensures r.Success? && |r.value| > 0 ==> [Begin] !in r.value[0]
    ensures r.Success? && |r.value| > 0 ==>
      forall g :: g != [Begin] ==> r.value[0][g] == CorpusGrams(sentences, 1)[g]
    ensures r.Success? ==> forall j :: 1 <= j < |r.value| ==> r.value[j] == CorpusGrams(sentences, j + 1)
  {
    var counts := CountTables(sentences, order, true);
    if ContainsMarker(text) {
      return Failure(MarkerInText);
    }
    return Success(counts);
  }

  lemma {:induction false} ZeroOut(ms: multiset<Gram>, x: Gram)
    ensures |ms[x := 0]| + ms[x] == |ms|
    decreases ms[x]
  {
    if ms[x] > 0 {
      var rest := ms - multiset{x};
      assert ms == rest + multiset{x};
      assert rest[x := 0] == ms[x := 0];
      ZeroOut(rest, x);
    }
  }

  /**
    The skipped unigram table is one gram short per sentence: a padded
    sentence of L words adds L - 1 unigrams to it, when no token is a marker.
   */
  lemma SkippedUnigramTotal(sentences: seq<seq<Word>>)
    requires NoMarkerWords(sentences)
    ensures |Table(sentences, 0, true)| + |sentences| == TotalWindows(sentences, 1)
  {
    ZeroOut(CorpusGrams(sentences, 1), [Begin]);
    BeginUnigrams(sentences);
    CorpusSize(sentences, 1);
  }

  /** A counting model: one count table per order 1..order. */
  datatype CountModel = CountModel(ngrams: seq<multiset<Gram>>, order: int)

  /**
    Building a counting model only counts: a marker in the text is refused,
    and any order is accepted, a non-positive one giving no tables at all.
   */
  method NewModel(text: string, sentences: seq<seq<Word>>, order: int) returns (r: Result<CountModel, NgramError>)
    ensures r.Failure? <==> ContainsMarker(text)
    ensures r.Failure? ==> r.error == MarkerInText
    ensures r.Success? ==> r.value.order == order && |r.value.ngrams| == if order > 0 then order else 0
    ensures r.Success? ==> forall j :: 0 <= j < |r.value.ngrams| ==> r.value.ngrams[j] == Table(sentences, j, true)
  {
    var counts := Count(text, sentences, order);
    if counts.Failure? {
      return Failure(counts.error);
    }
    return Success(CountModel(counts.value, order));
  }

  /**
    Indexing by order, through `GetTable`: a non-negative key reads Python
    index key - 1, which wraps around once, so key 0 is the last table.
   */
  function GetItem(m: CountModel, key: int): (r: Result<multiset<Gram>, NgramError>)
    ensures key < 0 ==> r == Failure(NegativeIndex)
    ensures key >= 0 ==> (r.Success? <==> -1 <= key - 1 < |m.ngrams| && |m.ngrams| > 0)
    ensures r.Success? ==> r.value == m.ngrams[(key - 1) % |m.ngrams|]
  {
    GetTable(m.ngrams, key)
  }
}
