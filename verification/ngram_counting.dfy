/**
  What the n-gram counters share: padding a tokenised sentence with begin and
  end markers, the windows of a given length, the multiset of all windows of
  a corpus (the reference the counters are compared with), the marker check
  on the raw text, and the counting loop itself.
 */
module NgramCounting {
  import opened Wrappers

  type Word = string
  type Gram = seq<Word>

  const Begin: Word := "<s>"
  const End: Word := "</s>"

  /** Why a counter or model refuses its input. */
  datatype NgramError =
    | MarkerInText
    | EmptyCounts
    | DivisionByZero
    | NegativeIndex
    | IndexOutOfRange
    | NonPositiveOrder

  /** A tokenised sentence between its begin and end markers. */
  function Pad(sentence: seq<Word>): seq<Word> {
    [Begin] + sentence + [End]
  }

  /** How many windows of length n fit in a sequence of L words. */
  function WindowCount(L: nat, n: nat): nat {
    if n <= L + 1 then L + 1 - n else 0
  }

  /** The windows of length n of `words`, left to right. */
  function Windows(words: seq<Word>, n: nat): (r: seq<Gram>)
    ensures |r| == WindowCount(|words|, n)
    ensures forall k :: 0 <= k < |r| ==> r[k] == words[k..k + n]
  {
    seq(WindowCount(|words|, n), k requires 0 <= k < WindowCount(|words|, n) => words[k..k + n])
  }

  /** Reference: every window of length n of every padded sentence, with multiplicity. */
  function CorpusGrams(sentences: seq<seq<Word>>, n: nat): multiset<Gram> {
    if sentences == [] then multiset{}
    else CorpusGrams(sentences[..|sentences| - 1], n) + multiset(Windows(Pad(sentences[|sentences| - 1]), n))
  }

  /** The number of windows of length n over the padded corpus. */
  function TotalWindows(sentences: seq<seq<Word>>, n: nat): nat {
    if sentences == [] then 0
    else TotalWindows(sentences[..|sentences| - 1], n) + WindowCount(|sentences[|sentences| - 1]| + 2, n)
  }

  /** `pattern` occurs as a contiguous substring of `text`. */
  predicate Occurs(pattern: string, text: string) {
    exists k :: 0 <= k <= |text| && pattern <= text[k..]
  }

  /** The raw text mentions a begin or end marker. */
  predicate ContainsMarker(text: string) {
    Occurs(Begin, text) || Occurs(End, text)
  }

  /** The unigram table of the variant that never counts the begin marker on its own. */
  function Filter(ms: multiset<Gram>, j: nat, skipBegin: bool): multiset<Gram> {
    if skipBegin && j == 0 then ms[[Begin] := 0] else ms
  }

  /** What table j holds after counting `sentences`. */
  function Table(sentences: seq<seq<Word>>, j: nat, skipBegin: bool): multiset<Gram> {
    Filter(CorpusGrams(sentences, j + 1), j, skipBegin)
  }

  /** The windows of length j + 1 that start before position i. */
  function Started(words: seq<Word>, j: nat, i: nat): multiset<Gram> {
    var w := Windows(words, j + 1);
    multiset(w[..if i <= |w| then i else |w|])
  }
  lemma FilterAdd(A: multiset<Gram>, B: multiset<Gram>, j: nat, skipBegin: bool)
    ensures Filter(A + B, j, skipBegin) == Filter(A, j, skipBegin) + Filter(B, j, skipBegin)
  {
    if skipBegin && j == 0 {
      var lhs, rhs := (A + B)[[Begin] := 0], A[[Begin] := 0] + B[[Begin] := 0];
      assert forall g :: lhs[g] == rhs[g];
    }
  }

  /** The window of length j + 1 at position i, as a one-element multiset when it fits and is counted. */
  function Added(words: seq<Word>, j: nat, i: nat, skipBegin: bool): multiset<Gram> {
    if i + j + 1 <= |words| && !(skipBegin && j == 0 && words[i..i + j + 1] == [Begin])
    then multiset{words[i..i + j + 1]} else multiset{}
  }

  /** Moving the window start from i to i + 1 adds the window at i, when it fits and is not filtered out. */
  lemma StartedStep(words: seq<Word>, j: nat, i: nat, skipBegin: bool)
    requires i < |words|
    ensures Filter(Started(words, j, i + 1), j, skipBegin) ==
      Filter(Started(words, j, i), j, skipBegin) + Added(words, j, i, skipBegin)
  {
    var w := Windows(words, j + 1);
    if i + j + 1 <= |words| {
      assert w[..i + 1] == w[..i] + [w[i]];
      assert Started(words, j, i + 1) == Started(words, j, i) + multiset{words[i..i + j + 1]};
      FilterAdd(Started(words, j, i), multiset{words[i..i + j + 1]}, j, skipBegin);
      if skipBegin && j == 0 && words[i..i + j + 1] == [Begin] {
        assert multiset{words[i..i + j + 1]}[[Begin] := 0] == multiset{};
      }
    } else {
      assert Started(words, j, i + 1) == Started(words, j, i);
    }
  }

  /** Counting one more sentence adds all of its windows, filtered. */
  lemma TableSnoc(sentences: seq<seq<Word>>, si: nat, j: nat, skipBegin: bool)
    requires si < |sentences|
    ensures Table(sentences[..si + 1], j, skipBegin) ==
      Table(sentences[..si], j, skipBegin) + Filter(Started(Pad(sentences[si]), j, |Pad(sentences[si])|), j, skipBegin)
  {
    var words := Pad(sentences[si]);
    assert sentences[..si + 1][..si] == sentences[..si];
    var w := Windows(words, j + 1);
    assert w[..|w|] == w;
    FilterAdd(CorpusGrams(sentences[..si], j + 1), multiset(w), j, skipBegin);
  }

  /** Every table, after one more sentence. */
  lemma TablesSnoc(sentences: seq<seq<Word>>, si: nat, skipBegin: bool, counts: seq<multiset<Gram>>, next: seq<multiset<Gram>>)
    requires si < |sentences| && |next| == |counts|
    requires forall q :: 0 <= q < |counts| ==> counts[q] == Table(sentences[..si], q, skipBegin)
    requires forall q :: 0 <= q < |counts| ==>
      next[q] == counts[q] + Filter(Started(Pad(sentences[si]), q, |Pad(sentences[si])|), q, skipBegin)
    ensures forall q :: 0 <= q < |counts| ==> next[q] == Table(sentences[..si + 1], q, skipBegin)
  {
    forall q | 0 <= q < |counts|
      ensures next[q] == Table(sentences[..si + 1], q, skipBegin)
    {
      TableSnoc(sentences, si, q, skipBegin);
    }
  }

  lemma AddAssociates(a: multiset<Gram>, b: multiset<Gram>, c: multiset<Gram>)
    ensures (a + b) + c == a + (b + c)
  {
  }

  /** The innermost loop: every length at one start position. */
  method CountAt(counts: seq<multiset<Gram>>, words: seq<Word>, i: nat, skipBegin: bool)
    returns (counts': seq<multiset<Gram>>)
    ensures |counts'| == |counts|
    ensures forall q :: 0 <= q < |counts| ==> counts'[q] == counts[q] + Added(words, q, i, skipBegin)
  {
    counts' := counts;
    var j := 0;
    while j < |counts|
      invariant 0 <= j <= |counts| && |counts'| == |counts|
      invariant forall q :: 0 <= q < j ==> counts'[q] == counts[q] + Added(words, q, i, skipBegin)
      invariant forall q :: j <= q < |counts| ==> counts'[q] == counts[q]
    {
      if i + j + 1 <= |words| {
        var gram := words[i..i + j + 1];
        if !(skipBegin && gram == [Begin] && j == 0) {
          counts' := counts'[j := counts'[j] + multiset{gram}];
        }
      }
      j := j + 1;
    }
  }

  /** The two inner loops: every window of one padded sentence. */
  method CountSentence(counts: seq<multiset<Gram>>, words: seq<Word>, skipBegin: bool)
    returns (counts': seq<multiset<Gram>>)
    ensures |counts'| == |counts|
    ensures forall q :: 0 <= q < |counts| ==>
      counts'[q] == counts[q] + Filter(Started(words, q, |words|), q, skipBegin)
  {
    counts' := counts;
    var i := 0;
    while i < |words|
      invariant 0 <= i <= |words| && |counts'| == |counts|
      invariant forall q :: 0 <= q < |counts| ==>
        counts'[q] == counts[q] + Filter(Started(words, q, i), q, skipBegin)
    {
      var next := CountAt(counts', words, i, skipBegin);
      forall q | 0 <= q < |counts|
        ensures next[q] == counts[q] + Filter(Started(words, q, i + 1), q, skipBegin)
      {
        StartedStep(words, q, i, skipBegin);
        AddAssociates(counts[q], Filter(Started(words, q, i), q, skipBegin), Added(words, q, i, skipBegin));
      }
      counts' := next;
      i := i + 1;
    }
  }

  /**
    The counting loop of both counters: for each padded sentence, each start
    position i and each length j + 1 that fits, add the window to table j,
    except that the variant with `skipBegin` never adds the lone begin marker.
   */
  method CountTables(sentences: seq<seq<Word>>, order: int, skipBegin: bool) returns (counts: seq<multiset<Gram>>)
    ensures |counts| == if order > 0 then order else 0
    ensures forall j :: 0 <= j < |counts| ==> counts[j] == Table(sentences, j, skipBegin)
  {
    var n := if order > 0 then order else 0;
    counts := seq(n, _ => multiset{});
    var si := 0;
    while si < |sentences|
      invariant 0 <= si <= |sentences| && |counts| == n
      invariant forall q :: 0 <= q < n ==> counts[q] == Table(sentences[..si], q, skipBegin)
    {
      var next := CountSentence(counts, Pad(sentences[si]), skipBegin);
      TablesSnoc(sentences, si, skipBegin, counts, next);
      counts := next;
      si := si + 1;
    }
    assert sentences[..si] == sentences;
  }
  // Properties of the reference.

  lemma CorpusSnoc(sentences: seq<seq<Word>>, n: nat)
    requires |sentences| > 0
    ensures var init := sentences[..|sentences| - 1];
      CorpusGrams(sentences, n) == CorpusGrams(init, n) + multiset(Windows(Pad(sentences[|sentences| - 1]), n))
  {
  }

  /** Every counted gram has exactly the length of its table. */
  lemma {:induction false} GramLength(sentences: seq<seq<Word>>, n: nat)
    ensures forall g :: g in CorpusGrams(sentences, n) ==> |g| == n
  {
    if sentences != [] {
      GramLength(sentences[..|sentences| - 1], n);
      var w := Windows(Pad(sentences[|sentences| - 1]), n);
      forall g | g in multiset(w)
        ensures |g| == n
      {
        var k :| 0 <= k < |w| && w[k] == g;
      }
    }
  }

  /** `g` is a window of length n of some padded sentence. */
  predicate WindowOf(sentences: seq<seq<Word>>, n: nat, g: Gram) {
    exists si :: 0 <= si < |sentences| && g in Windows(Pad(sentences[si]), n)
  }

  lemma WindowOfSnoc(sentences: seq<seq<Word>>, n: nat, g: Gram)
    requires |sentences| > 0
    ensures WindowOf(sentences, n, g) <==>
      WindowOf(sentences[..|sentences| - 1], n, g) || g in Windows(Pad(sentences[|sentences| - 1]), n)
  {
    var m := |sentences| - 1;
    var init := sentences[..m];
    if WindowOf(init, n, g) {
      var si :| 0 <= si < |init| && g in Windows(Pad(init[si]), n);
      assert sentences[si] == init[si];
    }
    if WindowOf(sentences, n, g) && !(g in Windows(Pad(sentences[m]), n)) {
      var si :| 0 <= si < |sentences| && g in Windows(Pad(sentences[si]), n);
      assert si < m && init[si] == sentences[si];
    }
  }

  /** The counted grams are exactly the windows of the padded sentences. */
  lemma {:induction false} GramsAreWindows(sentences: seq<seq<Word>>, n: nat, g: Gram)
    ensures g in CorpusGrams(sentences, n) <==> WindowOf(sentences, n, g)
  {
    if sentences != [] {
      GramsAreWindows(sentences[..|sentences| - 1], n, g);
      WindowOfSnoc(sentences, n, g);
    }
  }

  /** Each padded sentence of L words adds max(0, L + 1 - n) grams to table n. */
  lemma {:induction false} CorpusSize(sentences: seq<seq<Word>>, n: nat)
    ensures |CorpusGrams(sentences, n)| == TotalWindows(sentences, n)
  {
    if sentences != [] {
      CorpusSize(sentences[..|sentences| - 1], n);
    }
  }

  /** Counting occurrences in a sequence, one element at a time. */
  lemma MultisetSnoc(xs: seq<Gram>, x: Gram, g: Gram)
    ensures multiset(xs + [x])[g] == multiset(xs)[g] + (if x == g then 1 else 0)
  {
  }

  /**
    If each element of `longer` extends the element of `shorter` at the same
    place, a gram occurs in `longer` at most as often as its first n words occur
    in `shorter`.
   */
  lemma {:induction false} PrefixCountLe(longer: seq<Gram>, shorter: seq<Gram>, n: nat, g: Gram)
    requires |longer| <= |shorter| && |g| >= n
    requires forall k :: 0 <= k < |longer| ==> |longer[k]| >= n && longer[k][..n] == shorter[k]
    ensures multiset(longer)[g] <= multiset(shorter)[g[..n]]
    decreases |shorter|
  {
    if |shorter| > |longer| {
      var m := |shorter| - 1;
      PrefixCountLe(longer, shorter[..m], n, g);
      assert shorter == shorter[..m] + [shorter[m]];
      MultisetSnoc(shorter[..m], shorter[m], g[..n]);
    } else if longer != [] {
      var m := |longer| - 1;
      PrefixCountLe(longer[..m], shorter[..m], n, g);
      assert longer == longer[..m] + [longer[m]];
      assert shorter == shorter[..m] + [shorter[m]];
      MultisetSnoc(longer[..m], longer[m], g);
      MultisetSnoc(shorter[..m], shorter[m], g[..n]);
    }
  }

  /**
    The prefix of a counted gram of length n + 1 is a counted gram of length n,
    at least as frequent: the window at each position extends the shorter
    window at the same position.
   */
  lemma {:induction false} PrefixDominates(sentences: seq<seq<Word>>, n: nat, g: Gram)
    requires |g| == n + 1
    ensures CorpusGrams(sentences, n + 1)[g] <= CorpusGrams(sentences, n)[g[..n]]
  {
    if sentences != [] {
      var m := |sentences| - 1;
      PrefixDominates(sentences[..m], n, g);
      var words := Pad(sentences[m]);
      PrefixCountLe(Windows(words, n + 1), Windows(words, n), n, g);
    }
  }
  /** No token is itself a marker, as for tokens of a text that mentions no marker. */
  predicate NoMarkerWords(sentences: seq<seq<Word>>) {
    forall si, k :: 0 <= si < |sentences| && 0 <= k < |sentences[si]| ==>
      sentences[si][k] != Begin && sentences[si][k] != End
  }

  lemma SentenceBeginOnce(s: seq<Word>)
    requires forall k :: 0 <= k < |s| ==> s[k] != Begin
    ensures multiset(Windows(Pad(s), 1))[[Begin]] == 1
  {
    var w := Windows(Pad(s), 1);
    var rest := w[1..];
    assert w == [w[0]] + rest;
    assert w[0] == [Begin];
    forall k | 0 <= k < |rest|
      ensures rest[k] != [Begin]
    {
      assert rest[k] == [Pad(s)[k + 1]];
      if k < |s| {
        assert Pad(s)[k + 1] == s[k];
      } else {
        assert Pad(s)[k + 1] == End;
        assert |End| != |Begin|;
      }
    }
    assert [Begin] !in rest;
  }

  /** When no token is a marker, the lone begin marker occurs once per sentence. */
  lemma {:induction false} BeginUnigrams(sentences: seq<seq<Word>>)
    requires NoMarkerWords(sentences)
    ensures CorpusGrams(sentences, 1)[[Begin]] == |sentences|
  {
    if sentences != [] {
      var m := |sentences| - 1;
      var init := sentences[..m];
      assert NoMarkerWords(init) by {
        forall si, k | 0 <= si < |init| && 0 <= k < |init[si]|
          ensures init[si][k] != Begin && init[si][k] != End
        {
          assert init[si] == sentences[si];
        }
      }
      BeginUnigrams(init);
      SentenceBeginOnce(sentences[m]);
    }
  }
  /**
    Indexing a model by n-gram order, as Python indexes the list of tables
    with key - 1: a negative key is refused, key k in 1..|tables| selects the
    table of k-grams, key 0 wraps around to the last table, and any other key
    is out of range.
   */
  function GetTable<T>(tables: seq<T>, key: int): (r: Result<T, NgramError>)
    ensures key < 0 ==> r.Failure? && r.error == NegativeIndex
    ensures r.Success? <==> 1 <= key <= |tables| || (key == 0 && |tables| > 0)
    ensures r.Success? && key > 0 ==> r.value == tables[key - 1]
    ensures r.Success? && key == 0 ==> r.value == tables[|tables| - 1]
    ensures 0 <= key && r.Failure? ==> r.error == IndexOutOfRange
  {
    if key < 0 then Failure(NegativeIndex)
    else if key == 0 then (if |tables| > 0 then Success(tables[|tables| - 1]) else Failure(IndexOutOfRange))
    else if key <= |tables| then Success(tables[key - 1])
    else Failure(IndexOutOfRange)
  }
}
