/** The data preparation of one cross-validation fold in the main loop: the
    labelled events are split by their `fold{i}` entry, windows are extracted
    for each split against the shared signal store, the vocabulary is built
    from the training words, every split's words are translated to class
    indices, and the sizes recorded in the fold's results are taken. */
module FoldPipeline {
  import opened Results
  import opened SignalStore
  import opened WindowExtractor
  import opened FoldPartition
  import opened Vocabulary

  /** `n_train`, `n_dev`, `n_test`, `n_classes`, `n_classes_dev`, `n_classes_test`. */
  datatype Counts = Counts(nTrain: nat, nDev: nat, nTest: nat, nClasses: nat, nClassesDev: nat, nClassesTest: nat)

  datatype FoldData = FoldData(
    train: Extracted, dev: Extracted, test: Extracted,
    vocab: Vocab,
    yTrain: seq<int>, yDev: seq<int>, yTest: seq<int>,
    counts: Counts)

  /** One fold's preparation; every failure aborts the whole run. */
  function PrepareFold(store: Store, labels: seq<Label>, fold: int, lag: int, halfWindow: int): (r: Result<FoldData>)
    ensures r.Ok? ==> Partition(labels, fold).Ok?
    ensures r.Ok? ==>
              var d := r.value;
              && d.counts.nTrain == |d.train.x| == |d.yTrain| > 0
              && d.counts.nDev == |d.dev.x| == |d.yDev| > 0
              && d.counts.nTest == |d.test.x| == |d.yTest| > 0
              && d.counts.nClasses == |d.vocab.words|
              && d.counts.nClassesDev <= d.counts.nClasses
              && d.counts.nClassesTest <= d.counts.nClasses
              && (forall i :: 0 <= i < |d.yTrain| ==> 0 <= d.yTrain[i] < d.counts.nClasses)
              && (forall i :: 0 <= i < |d.yDev| ==> 0 <= d.yDev[i] < d.counts.nClasses)
              && (forall i :: 0 <= i < |d.yTest| ==> 0 <= d.yTest[i] < d.counts.nClasses)
    ensures r.Ok? ==>
              var d := r.value;
              && |d.yTrain| == |d.train.w| && |d.yDev| == |d.dev.w| && |d.yTest| == |d.test.w|
              && (forall i :: 0 <= i < |d.yTrain| ==>
                    d.yTrain[i] in d.vocab.indexToWord && d.vocab.indexToWord[d.yTrain[i]] == d.train.w[i])
              && (forall i :: 0 <= i < |d.yDev| ==>
                    d.yDev[i] in d.vocab.indexToWord && d.vocab.indexToWord[d.yDev[i]] == d.dev.w[i])
              && (forall i :: 0 <= i < |d.yTest| ==>
                    d.yTest[i] in d.vocab.indexToWord && d.vocab.indexToWord[d.yTest[i]] == d.test.w[i])
    ensures r.Ok? ==> r.value.counts.nClasses == |set w | w in r.value.train.w|
    ensures r.Ok? ==> r.value.counts.nClassesDev == Distinct(r.value.yDev)
                      && r.value.counts.nClassesTest == Distinct(r.value.yTest)
    ensures Partition(labels, fold).Err? ==> r == Err(MissingFoldTag(fold))
    ensures Partition(labels, fold).Ok? ==>
              var s := Partition(labels, fold).value;
              var train := Extract(store.signal, store.stitch, s.train, lag, halfWindow);
              var dev := Extract(store.signal, store.stitch, s.dev, lag, halfWindow);
              var test := Extract(store.signal, store.stitch, s.test, lag, halfWindow);
              && (train.Err? ==> r == Err(train.error))
              && (train.Ok? && dev.Err? ==> r == Err(dev.error))
              && (train.Ok? && dev.Ok? && test.Err? ==> r == Err(test.error))
              && (train.Ok? && dev.Ok? && test.Ok? ==>
                    var v := Build(train.value.w);
                    var yDev := Translate(v.wordToIndex, dev.value.w);
                    var yTest := Translate(v.wordToIndex, test.value.w);
                    && (yDev.Err? ==> r == Err(yDev.error))
                    && (yDev.Ok? && yTest.Err? ==> r == Err(yTest.error))
                    && (yDev.Ok? && yTest.Ok? ==>
                          && r.Ok?
                          && r.value.train == train.value
                          && r.value.dev == dev.value
                          && r.value.test == test.value
                          && r.value.vocab == v
                          && r.value.yDev == yDev.value
                          && r.value.yTest == yTest.value
                          && Translate(v.wordToIndex, train.value.w) == Ok(r.value.yTrain)))
  {
    var split :- Partition(labels, fold);
    var train :- Extract(store.signal, store.stitch, split.train, lag, halfWindow);
    var dev :- Extract(store.signal, store.stitch, split.dev, lag, halfWindow);
    var test :- Extract(store.signal, store.stitch, split.test, lag, halfWindow);
    var vocab := Build(train.w);
    TrainingWordsTranslate(train.w);
    var yTrain := Translate(vocab.wordToIndex, train.w).value;
    var yDev :- Translate(vocab.wordToIndex, dev.w);
    var yTest :- Translate(vocab.wordToIndex, test.w);
    var counts := Counts(|train.x|, |dev.x|, |test.x|, Distinct(yTrain), Distinct(yDev), Distinct(yTest));
    var d := FoldData(train, dev, test, vocab, yTrain, yDev, yTest, counts);
    AssembledFoldIsConsistent(d);
    VocabularySizeIsDistinctWords(train.w);
    Ok(d)
  }

  /** Helper: the sizes and labels of a fold assembled from a training
      vocabulary and three successful translations. */
  lemma AssembledFoldIsConsistent(d: FoldData)
    requires d.vocab == Build(d.train.w)
    requires |d.train.x| == |d.train.w| > 0 && |d.dev.x| == |d.dev.w| > 0 && |d.test.x| == |d.test.w| > 0
    requires Translate(d.vocab.wordToIndex, d.train.w) == Ok(d.yTrain)
    requires Translate(d.vocab.wordToIndex, d.dev.w) == Ok(d.yDev)
    requires Translate(d.vocab.wordToIndex, d.test.w) == Ok(d.yTest)
    requires d.counts == Counts(|d.train.x|, |d.dev.x|, |d.test.x|, Distinct(d.yTrain), Distinct(d.yDev), Distinct(d.yTest))
    ensures && d.counts.nTrain == |d.train.x| == |d.yTrain| > 0
            && d.counts.nDev == |d.dev.x| == |d.yDev| > 0
            && d.counts.nTest == |d.test.x| == |d.yTest| > 0
            && d.counts.nClasses == |d.vocab.words|
            && d.counts.nClassesDev <= d.counts.nClasses
            && d.counts.nClassesTest <= d.counts.nClasses
            && (forall i :: 0 <= i < |d.yTrain| ==> 0 <= d.yTrain[i] < d.counts.nClasses)
            && (forall i :: 0 <= i < |d.yDev| ==> 0 <= d.yDev[i] < d.counts.nClasses)
            && (forall i :: 0 <= i < |d.yTest| ==> 0 <= d.yTest[i] < d.counts.nClasses)
    ensures && |d.yTrain| == |d.train.w| && |d.yDev| == |d.dev.w| && |d.yTest| == |d.test.w|
            && (forall i :: 0 <= i < |d.yTrain| ==>
                  d.yTrain[i] in d.vocab.indexToWord && d.vocab.indexToWord[d.yTrain[i]] == d.train.w[i])
            && (forall i :: 0 <= i < |d.yDev| ==>
                  d.yDev[i] in d.vocab.indexToWord && d.vocab.indexToWord[d.yDev[i]] == d.dev.w[i])
            && (forall i :: 0 <= i < |d.yTest| ==>
                  d.yTest[i] in d.vocab.indexToWord && d.vocab.indexToWord[d.yTest[i]] == d.test.w[i])
  {
    var v := d.vocab;
    ClassCountIsVocabularySize(d.train.w);
    assert d.counts.nClasses == |v.words|;
    SplitLabels(d.train.w, v, d.train.w, d.yTrain);
    SplitLabels(d.train.w, v, d.dev.w, d.yDev);
    SplitLabels(d.train.w, v, d.test.w, d.yTest);
  }

  /** Helper: one split's translated labels, stated on plain values. */
  lemma SplitLabels(train: seq<string>, v: Vocab, ws: seq<string>, ys: seq<int>)
    requires v == Build(train)
    requires Translate(v.wordToIndex, ws) == Ok(ys)
    ensures |ys| == |ws|
    ensures forall i :: 0 <= i < |ys| ==> 0 <= ys[i] < |v.words| && ys[i] in v.indexToWord && v.indexToWord[ys[i]] == ws[i]
    ensures Distinct(ys) <= |v.words|
  {
    SplitClassesWithinVocabulary(train, ws);
    assert ys == Translate(Build(train).wordToIndex, ws).value;
  }

  /** A fold fails on an unknown word exactly when its extraction succeeds and
      some kept dev or test word never occurs among the kept training words. */
  lemma UnseenWordFailsTheFold(store: Store, labels: seq<Label>, fold: int, lag: int, halfWindow: int)
    requires Partition(labels, fold).Ok?
    requires var s := Partition(labels, fold).value;
             && Extract(store.signal, store.stitch, s.train, lag, halfWindow).Ok?
             && Extract(store.signal, store.stitch, s.dev, lag, halfWindow).Ok?
             && Extract(store.signal, store.stitch, s.test, lag, halfWindow).Ok?
    ensures var s := Partition(labels, fold).value;
            var wTrain := Extract(store.signal, store.stitch, s.train, lag, halfWindow).value.w;
            var wDev := Extract(store.signal, store.stitch, s.dev, lag, halfWindow).value.w;
            var wTest := Extract(store.signal, store.stitch, s.test, lag, halfWindow).value.w;
            PrepareFold(store, labels, fold, lag, halfWindow).Ok? <==>
              (forall i :: 0 <= i < |wDev| ==> wDev[i] in wTrain) &&
              (forall i :: 0 <= i < |wTest| ==> wTest[i] in wTrain)
  {
    var s := Partition(labels, fold).value;
    var wTrain := Extract(store.signal, store.stitch, s.train, lag, halfWindow).value.w;
    var wDev := Extract(store.signal, store.stitch, s.dev, lag, halfWindow).value.w;
    var wTest := Extract(store.signal, store.stitch, s.test, lag, halfWindow).value.w;
    TrainingWordsTranslate(wTrain);
    TranslateFailsIffUnseen(wTrain, wDev);
    TranslateFailsIffUnseen(wTrain, wTest);
  }
}
