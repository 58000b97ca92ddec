/**
  The counting n-gram model: one count table per order, turned into exact
  ratios (unigram count over the total number of unigrams, and an n-gram's
  count over the count of its prefix), and indexed by order.
 */
module NgramProbabilities {
  import opened Wrappers
  import opened NgramCounting

  /** A probability as an exact fraction. */
  datatype Ratio = Ratio(num: nat, den: nat)

  /**
    The count tables for orders 1 to `order`, from pre-tokenised sentences; a
    text that mentions a marker is refused.
   */
  method Count(text: string, sentences: seq<seq<Word>>, order: int)
    returns (r: Result<seq<multiset<Gram>>, NgramError>)
    ensures r.Failure? <==> ContainsMarker(text)
    ensures r.Failure? ==> r.error == MarkerInText
    ensures r.Success? ==> |r.value| == (if order > 0 then order else 0)
    ensures r.Success? ==> forall j :: 0 <= j < |r.value| ==> r.value[j] == CorpusGrams(sentences, j + 1)
  {
    var counts := CountTables(sentences, order, false);
    if ContainsMarker(text) {
      return Failure(MarkerInText);
    }
    return Success(counts);
  }

  /** All but the last word; the empty gram is its own prefix. */
  function Prefix(g: Gram): Gram {
    if g == [] then [] else g[..|g| - 1]
  }

  /** What a gram of table i is divided by: the total unigram count, or the count of its prefix one table down. */
  function Denominator(counts: seq<multiset<Gram>>, i: nat, g: Gram): nat
    requires i < |counts|
  {
    if i == 0 then |counts[0]| else counts[i - 1][Prefix(g)]
  }

  /** No counted gram would be divided by zero. */
  predicate Divisible(counts: seq<multiset<Gram>>) {
    forall i, g :: 0 <= i < |counts| && g in counts[i] ==> Denominator(counts, i, g) > 0
  }

  /** The ratio table for one order: each counted gram with its count over its denominator. */
  function RatioTable(counts: seq<multiset<Gram>>, i: nat): map<Gram, Ratio>
    requires i < |counts|
  {
    map g | g in counts[i] :: Ratio(counts[i][g], Denominator(counts, i, g))
  }

  /**
    One ratio table per count table; fails when there is no unigram table or
    when some counted gram's denominator is zero.
   */
  function CalculateProbabilities(counts: seq<multiset<Gram>>): (r: Result<seq<map<Gram, Ratio>>, NgramError>)
    ensures |counts| == 0 ==> r == Failure(EmptyCounts)
    ensures |counts| > 0 ==> (r.Success? <==> Divisible(counts))
    ensures |counts| > 0 && r.Failure? ==> r.error == DivisionByZero
    ensures r.Success? ==> |r.value| == |counts|
    ensures r.Success? ==> forall i :: 0 <= i < |counts| ==>
      && (forall g :: g in r.value[i] <==> g in counts[i])
      && (forall g :: g in counts[i] ==> r.value[i][g].num == counts[i][g] && r.value[i][g].den > 0)
    ensures r.Success? ==> forall g :: g in counts[0] ==> r.value[0][g].den == |counts[0]|
    ensures r.Success? ==> forall i, g :: 0 < i < |counts| && g in counts[i] ==>
      r.value[i][g].den == counts[i - 1][Prefix(g)]
  {
    if |counts| == 0 then Failure(EmptyCounts)
    else if !Divisible(counts) then Failure(DivisionByZero)
    else Success(seq(|counts|, i requires 0 <= i < |counts| => RatioTable(counts, i)))
  }
  /** The tables hold the corpus counts for orders 1, 2, ... in turn. */
  predicate FromCorpus(counts: seq<multiset<Gram>>, sentences: seq<seq<Word>>) {
    forall j :: 0 <= j < |counts| ==> counts[j] == CorpusGrams(sentences, j + 1)
  }

  lemma {:induction false} CountAtMostSize(ms: multiset<Gram>, g: Gram)
    ensures ms[g] <= |ms|
    decreases |ms|
  {
    if ms[g] > 0 {
      var rest := ms - multiset{g};
      assert ms == rest + multiset{g};
      CountAtMostSize(rest, g);
    }
  }

  /**
    Counted tables never divide by zero, and every ratio is a probability in
    (0, 1]: a unigram occurs at most as often as all unigrams together, and a
    longer gram at most as often as its prefix.
   */
  lemma CountedRatiosAreProbabilities(counts: seq<multiset<Gram>>, sentences: seq<seq<Word>>)
    requires |counts| > 0 && FromCorpus(counts, sentences)
    ensures Divisible(counts)
    ensures forall i, g :: 0 <= i < |counts| && g in counts[i] ==>
      0 < counts[i][g] <= Denominator(counts, i, g)
  {
    forall i, g | 0 <= i < |counts| && g in counts[i]
      ensures 0 < counts[i][g] <= Denominator(counts, i, g)
    {
      CountedRatioAt(counts, sentences, i, g);
    }
  }

  lemma CountedRatioAt(counts: seq<multiset<Gram>>, sentences: seq<seq<Word>>, i: nat, g: Gram)
    requires i < |counts| && FromCorpus(counts, sentences) && g in counts[i]
    ensures 0 < counts[i][g] <= Denominator(counts, i, g)
  {
    if i == 0 {
      CountAtMostSize(counts[0], g);
    } else {
      HigherRatio(sentences, i, g);
    }
  }

  lemma HigherRatio(sentences: seq<seq<Word>>, n: nat, g: Gram)
    requires g in CorpusGrams(sentences, n + 1)
    ensures 0 < CorpusGrams(sentences, n + 1)[g] <= CorpusGrams(sentences, n)[Prefix(g)]
  {
    GramLength(sentences, n + 1);
    assert Prefix(g) == g[..n];
    PrefixDominates(sentences, n, g);
  }

  /** The ratio tables of corpus counts, entry by entry, in terms of the corpus. */
  lemma CorpusRatioTables(counts: seq<multiset<Gram>>, sentences: seq<seq<Word>>)
    requires |counts| > 0 && FromCorpus(counts, sentences)
    ensures CalculateProbabilities(counts).Success?
    ensures var tables := CalculateProbabilities(counts).value;
      && |tables| == |counts|
      && (forall i, g: Gram :: 0 <= i < |counts| && g in tables[i] ==>
            && g in CorpusGrams(sentences, i + 1)
            && 0 < tables[i][g].num <= tables[i][g].den
            && tables[i][g].num == CorpusGrams(sentences, i + 1)[g])
      && (forall i, g: Gram :: 0 <= i < |counts| && g in CorpusGrams(sentences, i + 1) ==> g in tables[i])
      && (forall g: Gram :: g in tables[0] ==> tables[0][g].den == |CorpusGrams(sentences, 1)|)
      && (forall i, g: Gram :: 0 < i < |counts| && g in tables[i] ==> tables[i][g].den == CorpusGrams(sentences, i)[Prefix(g)])
  {
    CountedRatiosAreProbabilities(counts, sentences);
    var tables: seq<map<Gram, Ratio>> := CalculateProbabilities(counts).value;
    forall i, g: Gram | 0 <= i < |counts| && g in tables[i]
      ensures 0 < tables[i][g].num <= tables[i][g].den
    {
      assert tables[i][g].num == counts[i][g];
      assert tables[i][g].den == Denominator(counts, i, g);
    }
  }

  /** A model: the ratio tables for orders 1 to `order`. */
  datatype NgramModel = NgramModel(ngrams: seq<map<Gram, Ratio>>, order: int)

  /**
    Building a model counts and then divides: a marker in the text, or a
    non-positive order (no unigram table), is refused.
   */
  method NewModel(text: string, sentences: seq<seq<Word>>, order: int) returns (r: Result<NgramModel, NgramError>)
    ensures ContainsMarker(text) ==> r == Failure(MarkerInText)
    ensures !ContainsMarker(text) && order <= 0 ==> r == Failure(EmptyCounts)
    ensures !ContainsMarker(text) && order > 0 ==> r.Success? && r.value.order == order
    ensures r.Success? ==> |r.value.ngrams| == order
    ensures r.Success? ==> forall i, g :: 0 <= i < order && g in r.value.ngrams[i] ==>
      && g in CorpusGrams(sentences, i + 1)
      && 0 < r.value.ngrams[i][g].num <= r.value.ngrams[i][g].den
    ensures r.Success? ==> forall i, g :: 0 <= i < order && g in CorpusGrams(sentences, i + 1) ==>
      g in r.value.ngrams[i]
    ensures r.Success? ==> forall i, g :: 0 <= i < order && g in r.value.ngrams[i] ==>
      r.value.ngrams[i][g].num == CorpusGrams(sentences, i + 1)[g]
    ensures r.Success? ==> forall g :: g in r.value.ngrams[0] ==>
      r.value.ngrams[0][g].den == |CorpusGrams(sentences, 1)|
    ensures r.Success? ==> forall i, g :: 0 < i < order && g in r.value.ngrams[i] ==>
      r.value.ngrams[i][g].den == CorpusGrams(sentences, i)[Prefix(g)]
  {
    var counts := Count(text, sentences, order);
    if counts.Failure? {
      return Failure(counts.error);
    }
    if order > 0 {
      CorpusRatioTables(counts.value, sentences);
    }
    var probabilities := CalculateProbabilities(counts.value);
    if probabilities.Failure? {
      return Failure(probabilities.error);
    }
    return Success(NgramModel(probabilities.value, order));
  }

  /**
    Indexing by order, through `GetTable`: a non-negative key reads Python
    index key - 1, which wraps around once, so key 0 is the last table.
   */
  function GetItem(m: NgramModel, key: int): (r: Result<map<Gram, Ratio>, NgramError>)
    ensures key < 0 ==> r == Failure(NegativeIndex)
    ensures key >= 0 ==> (r.Success? <==> -1 <= key - 1 < |m.ngrams| && |m.ngrams| > 0)
    ensures r.Success? ==> r.value == m.ngrams[(key - 1) % |m.ngrams|]
  {
    GetTable(m.ngrams, key)
  }
}
