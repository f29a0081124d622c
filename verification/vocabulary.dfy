/** The label indexing of one fold: the distinct training words, sorted, are
    numbered densely (`word2index`), the inverse map is built (`index2word`),
    and the words of every split are translated through `word2index`, so a
    word never seen in training is a failed lookup. */
module Vocabulary {
  import opened Results
  import opened LexOrder

  /** `words` is `sorted(set(w_train))`; the maps are `word2index` and `index2word`. */
  datatype Vocab = Vocab(words: seq<string>, wordToIndex: map<string, int>, indexToWord: map<int, string>)

  /** Builds the vocabulary from the training words only. */
  function Build(train: seq<string>): (v: Vocab)
    ensures StrictlySorted(v.words)
    ensures forall w :: w in v.words <==> w in train
    ensures forall w :: w in v.wordToIndex <==> w in train
    ensures forall j :: j in v.indexToWord <==> 0 <= j < |v.words|
    ensures forall w :: w in v.wordToIndex ==> 0 <= v.wordToIndex[w] < |v.words| && v.words[v.wordToIndex[w]] == w
    ensures forall j :: 0 <= j < |v.words| ==> v.words[j] in v.wordToIndex && v.wordToIndex[v.words[j]] == j
    ensures forall w :: w in v.wordToIndex ==> v.indexToWord[v.wordToIndex[w]] == w
    ensures forall j :: j in v.indexToWord ==> v.indexToWord[j] in v.wordToIndex && v.wordToIndex[v.indexToWord[j]] == j
  {
    var words := SortedSet(train);
    var wordToIndex := Enumerate(words);
    EnumerateIsInjective(words);
    var indexToWord := Invert(wordToIndex);
    NumberingIsConsistent(words, wordToIndex, indexToWord);
    Vocab(words, wordToIndex, indexToWord)
  }

  /** Helper: distinct words get distinct numbers. */
  lemma EnumerateIsInjective(words: seq<string>)
    requires StrictlySorted(words)
    ensures Injective(Enumerate(words))
  {
    var m := Enumerate(words);
    forall u, w | u in m && w in m && m[u] == m[w]
      ensures u == w
    {
      assert words[m[u]] == u && words[m[w]] == w;
    }
  }

  /** Helper: the numbering of the sorted words and its inverse agree. */
  lemma NumberingIsConsistent(words: seq<string>, wordToIndex: map<string, int>, indexToWord: map<int, string>)
    requires StrictlySorted(words)
    requires wordToIndex == Enumerate(words)
    requires indexToWord == Invert(wordToIndex)
    ensures forall j :: j in indexToWord <==> 0 <= j < |words|
  {
    forall j | 0 <= j < |words|
      ensures j in indexToWord
    {
      assert wordToIndex[words[j]] == j;
    }
  }

  /** `{w: j for j, w in enumerate(words)}` over distinct words. */
  function Enumerate(words: seq<string>): (m: map<string, int>)
    requires StrictlySorted(words)
    ensures forall w :: w in m <==> w in words
    ensures forall j :: 0 <= j < |words| ==> m[words[j]] == j
    ensures forall w :: w in m ==> 0 <= m[w] < |words| && words[m[w]] == w
  {
    if |words| == 0 then map[]
    else
      var n := |words| - 1;
      var prefix := words[..n];
      var m := Enumerate(prefix);
      assert words[n] !in prefix by {
        forall j | 0 <= j < n
          ensures prefix[j] != words[n]
        {
          LessIrreflexive(words[n]);
        }
      }
      assert words == prefix + [words[n]];
      EnumerateStep(prefix, words[n], m);
      m[words[n] := n]
  }

  /** Helper: numbering one more, new, word last. */
  lemma EnumerateStep(prefix: seq<string>, w: string, m: map<string, int>)
    requires w !in prefix
    requires forall u :: u in m <==> u in prefix
    requires forall j :: 0 <= j < |prefix| ==> m[prefix[j]] == j
    requires forall u :: u in m ==> 0 <= m[u] < |prefix| && prefix[m[u]] == u
    ensures var words, m' := prefix + [w], m[w := |prefix|];
            && (forall u :: u in m' <==> u in words)
            && (forall j :: 0 <= j < |words| ==> m'[words[j]] == j)
            && (forall u :: u in m' ==> 0 <= m'[u] < |words| && words[m'[u]] == u)
  {
    var words, m' := prefix + [w], m[w := |prefix|];
    forall j | 0 <= j < |words|
      ensures m'[words[j]] == j
    {
      if j < |prefix| {
        assert words[j] == prefix[j];
      }
    }
  }

  /** No two keys share a value. */
  predicate Injective(m: map<string, int>) {
    forall u, w :: u in m && w in m && m[u] == m[w] ==> u == w
  }

  /** `{j: w for w, j in m.items()}`, the inverse of an injective map. */
  function Invert(m: map<string, int>): (r: map<int, string>)
    requires Injective(m)
    ensures forall w :: w in m ==> m[w] in r && r[m[w]] == w
    ensures forall j :: j in r ==> r[j] in m && m[r[j]] == j
  {
    map w | w in m :: m[w] := w
  }

  /** The index of a training word is the number of distinct training words
      that sort before it: the k-th word in sorted order gets k. */
  lemma IndexIsRank(train: seq<string>, w: string)
    requires w in train
    ensures var v := Build(train);
            w in v.wordToIndex && v.wordToIndex[w] == |Below(train, w)|
  {
    var v := Build(train);
    var k := v.wordToIndex[w];
    RankIsPosition(v.words, k);
    assert Below(v.words, w) == Below(train, w);
  }

  /** The numbering is the sorted order: any strictly sorted listing of the
      distinct training words is exactly `words`. */
  lemma WordsAreTheSortedSet(train: seq<string>, s: seq<string>)
    requires StrictlySorted(s)
    requires forall u :: u in s <==> u in train
    ensures Build(train).words == s
  {
    SortedIsUnique(Build(train).words, s);
  }

  /** `[word2index[w] for w in ws]`: the first word missing from the map fails. */
  function Translate(wordToIndex: map<string, int>, ws: seq<string>): (r: Result<seq<int>>)
    ensures r.Ok? <==> forall i :: 0 <= i < |ws| ==> ws[i] in wordToIndex
    ensures r.Ok? ==> |r.value| == |ws| && forall i :: 0 <= i < |ws| ==> r.value[i] == wordToIndex[ws[i]]
    ensures r.Err? ==> exists i :: && 0 <= i < |ws|
                                   && ws[i] !in wordToIndex
                                   && r.error == UnknownWord(ws[i])
                                   && forall k :: 0 <= k < i ==> ws[k] in wordToIndex
  {
    if |ws| == 0 then Ok([])
    else if ws[0] !in wordToIndex then Err(UnknownWord(ws[0]))
    else
      var rest :- Translate(wordToIndex, ws[1..]);
      assert forall i :: 1 <= i < |ws| ==> ws[i] == ws[1..][i - 1];
      Ok([wordToIndex[ws[0]]] + rest)
  }

  /** `np.unique(ys).size`: the number of distinct labels. */
  function Distinct(ys: seq<int>): nat {
    |set y | y in ys|
  }

  /** The training words always translate; every label lies in
      `[0, |words|)` and `index2word` maps it back to its word. */
  lemma TrainingWordsTranslate(train: seq<string>)
    ensures var v := Build(train);
            var r := Translate(v.wordToIndex, train);
            && r.Ok?
            && (forall i :: 0 <= i < |train| ==> 0 <= r.value[i] < |v.words|)
            && (forall i :: 0 <= i < |train| ==> v.indexToWord[r.value[i]] == train[i])
  {
    var v := Build(train);
    assert forall i :: 0 <= i < |train| ==> train[i] in v.wordToIndex;
  }

  /** A dev or test split translates exactly when each of its words occurs in
      the training words; otherwise the lookup fails on an unseen word. */
  lemma TranslateFailsIffUnseen(train: seq<string>, ws: seq<string>)
    ensures var r := Translate(Build(train).wordToIndex, ws);
            && (r.Ok? <==> forall i :: 0 <= i < |ws| ==> ws[i] in train)
            && (r.Err? ==> r.error.UnknownWord? && r.error.word in ws && r.error.word !in train)
  {
  }

  /** `n_classes`: the training labels take exactly `|words|` distinct values. */
  lemma ClassCountIsVocabularySize(train: seq<string>)
    ensures var v := Build(train);
            Distinct(Translate(v.wordToIndex, train).value) == |v.words|
  {
    var v := Build(train);
    TrainingWordsTranslate(train);
    LabelsCoverRange(v.words, v.wordToIndex, train, Translate(v.wordToIndex, train).value);
  }

  /** The vocabulary has one entry per distinct training word. */
  lemma VocabularySizeIsDistinctWords(train: seq<string>)
    ensures |Build(train).words| == |set w | w in train|
  {
    var words := Build(train).words;
    DistinctCard(words);
    assert (set w | w in words) == (set w | w in train);
  }

  /** Helper: labels of a word list that contains every vocabulary word take
      every class value. */
  lemma LabelsCoverRange(words: seq<string>, wordToIndex: map<string, int>, train: seq<string>, ys: seq<int>)
    requires forall w :: w in words ==> w in train
    requires forall j :: 0 <= j < |words| ==> words[j] in wordToIndex && wordToIndex[words[j]] == j
    requires forall i :: 0 <= i < |train| ==> train[i] in wordToIndex
    requires |ys| == |train| && forall i :: 0 <= i < |train| ==> ys[i] == wordToIndex[train[i]]
    requires forall i :: 0 <= i < |ys| ==> 0 <= ys[i] < |words|
    ensures (set y | y in ys) == Range(|words|)
  {
    forall j | 0 <= j < |words|
      ensures j in ys
    {
      assert words[j] in train;
      var i :| 0 <= i < |train| && train[i] == words[j];
      assert ys[i] == j;
    }
  }

  /** The set `{0, ..., n - 1}` of class indices. */
  function Range(n: nat): (r: set<int>)
    ensures forall j :: j in r <==> 0 <= j < n
    ensures |r| == n
  {
    if n == 0 then {} else Range(n - 1) + {n - 1}
  }

  /** Labels of a split that translated lie in the class range, so a split
      has at most as many distinct labels as there are classes. */
  lemma SplitClassesWithinVocabulary(train: seq<string>, ws: seq<string>)
    requires Translate(Build(train).wordToIndex, ws).Ok?
    ensures var v := Build(train);
            var ys := Translate(v.wordToIndex, ws).value;
            && |ys| == |ws|
            && (forall i :: 0 <= i < |ys| ==>
                  0 <= ys[i] < |v.words| && ys[i] in v.indexToWord && v.indexToWord[ys[i]] == ws[i])
            && Distinct(ys) <= |v.words|
  {
    var v := Build(train);
    var ys := Translate(v.wordToIndex, ws).value;
    SubsetCard((set y | y in ys), Range(|v.words|));
  }

  /** Helper: a subset is no larger than its superset. */
  lemma SubsetCard(a: set<int>, b: set<int>)
    requires a <= b
    ensures |a| <= |b|
  {
    assert b == a + (b - a);
  }
}
