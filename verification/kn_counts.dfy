/**
  The count tables of the Kneser-Ney model: the raw counts of the highest
  order, and below them continuation counts, each derived from the table one
  order up by counting distinct continuations rather than occurrences.
 */
module KneserNeyCounts {
  import opened Wrappers
  import opened NgramCounting

  /** A count table: each recorded gram with its count. */
  type Counts = map<Gram, nat>

  /** The count a table gives a gram, zero when it is absent. */
  function Get(r: Counts, g: Gram): nat {
    if g in r then r[g] else 0
  }

  /** Records one more occurrence of `g`. */
  function Bump(r: Counts, g: Gram): (r': Counts)
    ensures forall h :: h in r' <==> h in r || h == g
    ensures forall h :: Get(r', h) == Get(r, h) + (if h == g then 1 else 0)
  {
    r[g := Get(r, g) + 1]
  }

  /** Reference: a multiset as a count table, each distinct element with its multiplicity. */
  function Tally(ms: multiset<Gram>): Counts {
    map g | g in ms :: ms[g]
  }

  /** A table records a gram exactly when it counts it at least once. */
  predicate AllPositive(r: Counts) {
    forall g :: g in r ==> r[g] > 0
  }

  lemma TallyBump(ms: multiset<Gram>, g: Gram)
    ensures Tally(ms + multiset{g}) == Bump(Tally(ms), g)
  {
    var lhs, rhs := Tally(ms + multiset{g}), Bump(Tally(ms), g);
    assert forall h :: h in lhs <==> h in rhs;
    forall h | h in lhs
      ensures lhs[h] == rhs[h]
    {
      assert Get(rhs, h) == Get(Tally(ms), h) + (if h == g then 1 else 0);
    }
  }

  /** Counting one more window bumps the tally of the windows counted so far. */
  lemma TallyNextWindow(base: multiset<Gram>, w: seq<Gram>, i: nat)
    requires i < |w|
    ensures Tally(base + multiset(w[..i + 1])) == Bump(Tally(base + multiset(w[..i])), w[i])
  {
    assert w[..i + 1] == w[..i] + [w[i]];
    assert base + multiset(w[..i + 1]) == (base + multiset(w[..i])) + multiset{w[i]};
    TallyBump(base + multiset(w[..i]), w[i]);
  }

  /** Counts the windows of length n of one padded sentence into `count`. */
  method CountWindows(count: Counts, words: seq<Word>, n: nat, ghost base: multiset<Gram>)
    returns (r: Counts)
    requires count == Tally(base)
    ensures r == Tally(base + multiset(Windows(words, n)))
  {
    ghost var w := Windows(words, n);
    r := count;
    var i := 0;
    while i < WindowCount(|words|, n)
      invariant 0 <= i <= |w|
      invariant r == Tally(base + multiset(w[..i]))
    {
      TallyNextWindow(base, w, i);
      r := Bump(r, words[i..i + n]);
      i := i + 1;
    }
    assert w[..i] == w;
  }

  /**
    Counts every window of length n of every padded sentence: the table
    records each window of the corpus with its number of occurrences.
   */
  method CalculateCount(sentences: seq<seq<Word>>, n: nat) returns (r: Counts)
    ensures r == Tally(CorpusGrams(sentences, n))
  {
    r := map[];
    var si := 0;
    while si < |sentences|
      invariant 0 <= si <= |sentences|
      invariant r == Tally(CorpusGrams(sentences[..si], n))
    {
      assert sentences[..si + 1][..si] == sentences[..si];
      r := CountWindows(r, Pad(sentences[si]), n, CorpusGrams(sentences[..si], n));
      si := si + 1;
    }
    assert sentences[..si] == sentences;
  }

  /** The keys of `keys` that extend `g` by one word at the end. */
  function Prefixed(keys: set<Gram>, g: Gram): set<Gram> {
    set h | h in keys && |h| > 0 && h[..|h| - 1] == g
  }

  /** The keys of `keys` that end with the end marker and extend `g` by one word at the front. */
  function EndSuffixed(keys: set<Gram>, g: Gram): set<Gram> {
    set h | h in keys && |h| > 0 && h[|h| - 1] == End && h[1..] == g
  }

  /** Reference: the continuation count of `g` over the keys of the table one order up. */
  function Continuation(keys: set<Gram>, g: Gram): nat {
    |Prefixed(keys, g)| + |EndSuffixed(keys, g)|
  }

  /** `r` is the continuation table of `keys`. */
  ghost predicate Represents(r: Counts, keys: set<Gram>) {
    AllPositive(r) && forall g :: Get(r, g) == Continuation(keys, g)
  }

  lemma PrefixedStep(done: set<Gram>, h: Gram, g: Gram)
    requires |h| > 0 && h !in done
    ensures |Prefixed(done + {h}, g)| == |Prefixed(done, g)| + if h[..|h| - 1] == g then 1 else 0
  {
    if h[..|h| - 1] == g {
      assert Prefixed(done + {h}, g) == Prefixed(done, g) + {h};
    } else {
      assert Prefixed(done + {h}, g) == Prefixed(done, g);
    }
  }

  lemma EndSuffixedStep(done: set<Gram>, h: Gram, g: Gram)
    requires |h| > 0 && h !in done
    ensures |EndSuffixed(done + {h}, g)| == |EndSuffixed(done, g)| + if h[|h| - 1] == End && h[1..] == g then 1 else 0
  {
    if h[|h| - 1] == End && h[1..] == g {
      assert EndSuffixed(done + {h}, g) == EndSuffixed(done, g) + {h};
    } else {
      assert EndSuffixed(done + {h}, g) == EndSuffixed(done, g);
    }
  }

  /** One more key adds one to the count of its prefix, and of its suffix when it ends a sentence. */
  lemma ContinuationStep(done: set<Gram>, h: Gram, g: Gram)
    requires |h| > 0 && h !in done
    ensures Continuation(done + {h}, g) == Continuation(done, g)
      + (if h[..|h| - 1] == g then 1 else 0)
      + (if h[|h| - 1] == End && h[1..] == g then 1 else 0)
  {
    PrefixedStep(done, h, g);
    EndSuffixedStep(done, h, g);
  }

  /** What one key of the table one order up adds to the continuation table. */
  function Absorb(r: Counts, h: Gram): Counts
    requires |h| > 0
  {
    var r1 := Bump(r, h[..|h| - 1]);
    if h[|h| - 1] == End then Bump(r1, h[1..]) else r1
  }

  lemma AbsorbStep(r: Counts, done: set<Gram>, h: Gram)
    requires |h| > 0 && h !in done
    requires Represents(r, done)
    ensures Represents(Absorb(r, h), done + {h})
  {
    var r' := Absorb(r, h);
    forall g
      ensures Get(r', g) == Continuation(done + {h}, g)
    {
      ContinuationStep(done, h, g);
    }
  }

  /**
    The continuation table of a table one order up: the count of g is the
    number of distinct keys that extend g by a word at the end, plus the
    number of distinct keys ending a sentence that extend g by a word at the
    front; g is recorded exactly when that number is positive.
   */
  method ContinuationCounts(prev: Counts) returns (r: Counts)
    requires forall h :: h in prev ==> |h| > 0
    ensures forall g :: g in r <==> Continuation(prev.Keys, g) > 0
    ensures forall g :: g in r ==> r[g] == Continuation(prev.Keys, g)
  {
    r := map[];
    var remaining := prev.Keys;
    ghost var done: set<Gram> := {};
    assert forall g :: Prefixed(done, g) == {} && EndSuffixed(done, g) == {};
    while remaining != {}
      invariant done + remaining == prev.Keys && done !! remaining
      invariant Represents(r, done)
      decreases remaining
    {
      var h :| h in remaining;
      AbsorbStep(r, done, h);
      r := Absorb(r, h);
      remaining := remaining - {h};
      done := done + {h};
    }
    assert done == prev.Keys;
    assert forall g :: Get(r, g) == Continuation(prev.Keys, g);
  }

  /** Every continuation key is one word shorter than the keys it is counted from. */
  lemma ContinuationKeyLength(keys: set<Gram>, m: nat, g: Gram)
    requires forall h :: h in keys ==> |h| == m
    requires Continuation(keys, g) > 0
    ensures |g| + 1 == m
  {
    if |Prefixed(keys, g)| > 0 {
      assert Prefixed(keys, g) != {};
      var h :| h in Prefixed(keys, g);
    } else {
      assert EndSuffixed(keys, g) != {};
      var h :| h in EndSuffixed(keys, g);
    }
  }

  /** The table for order N - t holds grams of exactly that length, each counted at least once. */
  predicate TableShape(table: Counts, len: int) {
    forall g :: g in table ==> |g| == len && table[g] >= 1
  }

  lemma TallyShape(sentences: seq<seq<Word>>, n: nat)
    ensures TableShape(Tally(CorpusGrams(sentences, n)), n)
  {
    GramLength(sentences, n);
  }

  /** `next` records exactly the continuation counts of the keys of `prev`. */
  ghost predicate ContinuationOf(next: Counts, prev: Counts) {
    && (forall g :: g in next <==> Continuation(prev.Keys, g) > 0)
    && (forall g :: g in next ==> next[g] == Continuation(prev.Keys, g))
  }

  lemma ContinuationShape(prev: Counts, next: Counts, m: nat)
    requires m > 0 && TableShape(prev, m + 1)
    requires ContinuationOf(next, prev)
    ensures TableShape(next, m)
  {
    forall g | g in next
      ensures |g| == m
    {
      ContinuationKeyLength(prev.Keys, m + 1, g);
    }
  }

  /** Each table after the first is the continuation table of the one before it. */
  ghost predicate Chained(tables: seq<Counts>) {
    forall t :: 0 < t < |tables| ==> ContinuationOf(tables[t], tables[t - 1])
  }

  lemma ChainedSnoc(tables: seq<Counts>, next: Counts)
    requires |tables| > 0 && Chained(tables)
    requires ContinuationOf(next, tables[|tables| - 1])
    ensures Chained(tables + [next])
  {
    var ext := tables + [next];
    forall t | 0 < t < |ext|
      ensures ContinuationOf(ext[t], ext[t - 1])
    {
      if t < |tables| {
        assert ext[t] == tables[t] && ext[t - 1] == tables[t - 1];
      } else {
        assert ext[t] == next && ext[t - 1] == tables[|tables| - 1];
      }
    }
  }

  /** Table t holds grams of length N - t, each counted at least once. */
  predicate Shaped(tables: seq<Counts>, highestOrder: nat) {
    forall t :: 0 <= t < |tables| ==> TableShape(tables[t], highestOrder - t)
  }

  lemma ShapedSnoc(tables: seq<Counts>, next: Counts, highestOrder: nat)
    requires Shaped(tables, highestOrder)
    requires TableShape(next, highestOrder - |tables|)
    ensures Shaped(tables + [next], highestOrder)
  {
    var ext := tables + [next];
    forall t | 0 <= t < |ext|
      ensures TableShape(ext[t], highestOrder - t)
    {
      if t < |tables| {
        assert ext[t] == tables[t];
      }
    }
  }

  /**
    The Kneser-Ney count tables for highest order N: table 0 is the raw
    count of N-grams, and each later table is the continuation table of the
    one before it, its keys one word shorter; no table records a zero.
   */
  method MakeKNCounts(sentences: seq<seq<Word>>, highestOrder: nat) returns (tables: seq<Counts>)
    requires highestOrder > 0
    ensures |tables| == highestOrder
    ensures tables[0] == Tally(CorpusGrams(sentences, highestOrder))
    ensures forall t :: 0 < t < |tables| ==> ContinuationOf(tables[t], tables[t - 1])
    ensures forall t :: 0 <= t < |tables| ==> TableShape(tables[t], highestOrder - t)
  {
    var top := CalculateCount(sentences, highestOrder);
    TallyShape(sentences, highestOrder);
    tables := [top];
    assert Shaped(tables, highestOrder) && Chained(tables);
    while |tables| < highestOrder
      invariant 1 <= |tables| <= highestOrder
      invariant tables[0] == top
      invariant Chained(tables)
      invariant Shaped(tables, highestOrder)
    {
      tables := AddLevel(tables, highestOrder);
    }
  }

  /** One step of the table builder: the continuation table of the last table. */
  method AddLevel(tables: seq<Counts>, highestOrder: nat) returns (ext: seq<Counts>)
    requires 1 <= |tables| < highestOrder
    requires Chained(tables) && Shaped(tables, highestOrder)
    ensures |ext| == |tables| + 1 && ext[0] == tables[0]
    ensures Chained(ext) && Shaped(ext, highestOrder)
  {
    var prev := tables[|tables| - 1];
    assert TableShape(prev, highestOrder - (|tables| - 1));
    var next := ContinuationCounts(prev);
    assert ContinuationOf(next, prev);
    ContinuationShape(prev, next, highestOrder - |tables|);
    ChainedSnoc(tables, next);
    ShapedSnoc(tables, next, highestOrder);
    ext := tables + [next];
  }

  /**
    The counting part of the constructor: a non-positive highest order is
    refused; otherwise the model's count tables are built. The discounts the
    constructor computes next are not part of this model.
   */
  method NewModel(sentences: seq<seq<Word>>, highestOrder: int) returns (r: Result<seq<Counts>, NgramError>)
    ensures r.Failure? <==> highestOrder <= 0
    ensures r.Failure? ==> r.error == NonPositiveOrder
    ensures r.Success? ==> |r.value| == highestOrder
    ensures r.Success? ==> r.value[0] == Tally(CorpusGrams(sentences, highestOrder))
    ensures r.Success? ==> forall t :: 0 < t < |r.value| ==> ContinuationOf(r.value[t], r.value[t - 1])
    ensures r.Success? ==> forall t :: 0 <= t < |r.value| ==> TableShape(r.value[t], highestOrder - t)
  {
    if highestOrder <= 0 {
      return Failure(NonPositiveOrder);
    }
    var tables := MakeKNCounts(sentences, highestOrder);
    return Success(tables);
  }
}
