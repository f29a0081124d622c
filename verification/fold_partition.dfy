/** The per-fold split of the labelled events: three order-preserving filters
    keeping the events whose `fold{i}` entry is exactly `'train'`, `'dev'` or
    `'test'`. Events with any other entry belong to no split. */
module FoldPartition {
  import opened Results
  import opened SignalStore

  const TrainTag := "train"
  const DevTag := "dev"
  const TestTag := "test"

  datatype Split = Split(train: seq<Label>, dev: seq<Label>, test: seq<Label>)

  /** Every event has a `fold{fold}` entry; otherwise the lookup is a KeyError. */
  predicate Tagged(labels: seq<Label>, fold: int) {
    forall l :: l in labels ==> fold in l.tags
  }

  /** `a` is `b` with some elements removed and the rest kept in order. */
  ghost predicate IsSubsequence<T>(a: seq<T>, b: seq<T>)
    decreases |b|
  {
    || |a| == 0
    || (|b| > 0 && ((a[0] == b[0] && IsSubsequence(a[1..], b[1..])) || IsSubsequence(a, b[1..])))
  }

  /** `[example for example in labels if example[f'fold{fold}'] == tag]`. */
  function Select(labels: seq<Label>, fold: int, tag: string): (r: seq<Label>)
    requires Tagged(labels, fold)
    ensures forall l :: l in r <==> l in labels && l.tags[fold] == tag
    ensures IsSubsequence(r, labels)
  {
    if |labels| == 0 then []
    else
      var rest := Select(labels[1..], fold, tag);
      assert forall l :: l in labels <==> l == labels[0] || l in labels[1..];
      if labels[0].tags[fold] == tag then [labels[0]] + rest else rest
  }

  /** The events whose entry is none of the three tags; the source drops them. */
  function Others(labels: seq<Label>, fold: int): (r: seq<Label>)
    requires Tagged(labels, fold)
    ensures forall l :: l in r <==> l in labels && l.tags[fold] !in {TrainTag, DevTag, TestTag}
  {
    if |labels| == 0 then []
    else
      var rest := Others(labels[1..], fold);
      assert forall l :: l in labels <==> l == labels[0] || l in labels[1..];
      if labels[0].tags[fold] !in {TrainTag, DevTag, TestTag} then [labels[0]] + rest else rest
  }

  /** The partition of one fold; an event without the fold's entry aborts it. */
  function Partition(labels: seq<Label>, fold: int): (r: Result<Split>)
    ensures r.Ok? <==> Tagged(labels, fold)
    ensures r.Err? ==> r.error == MissingFoldTag(fold)
    ensures r.Ok? ==> forall l :: l in r.value.train <==> l in labels && l.tags[fold] == TrainTag
    ensures r.Ok? ==> forall l :: l in r.value.dev <==> l in labels && l.tags[fold] == DevTag
    ensures r.Ok? ==> forall l :: l in r.value.test <==> l in labels && l.tags[fold] == TestTag
    ensures r.Ok? ==> && IsSubsequence(r.value.train, labels)
                      && IsSubsequence(r.value.dev, labels)
                      && IsSubsequence(r.value.test, labels)
  {
    if !Tagged(labels, fold) then Err(MissingFoldTag(fold))
    else Ok(Split(Select(labels, fold, TrainTag), Select(labels, fold, DevTag), Select(labels, fold, TestTag)))
  }

  /** The three splits share no event. */
  lemma SplitsAreDisjoint(labels: seq<Label>, fold: int)
    requires Partition(labels, fold).Ok?
    ensures var s := Partition(labels, fold).value;
            && (forall l :: l in s.train ==> l !in s.dev && l !in s.test)
            && (forall l :: l in s.dev ==> l !in s.test)
  {
  }

  /** Every event lands in exactly one of the three splits or among the
      dropped ones, as often as it occurs: nothing is duplicated or lost. */
  lemma {:induction false} PartitionAccountsForEveryEvent(labels: seq<Label>, fold: int)
    requires Tagged(labels, fold)
    ensures multiset(Select(labels, fold, TrainTag)) + multiset(Select(labels, fold, DevTag)) +
            multiset(Select(labels, fold, TestTag)) + multiset(Others(labels, fold)) == multiset(labels)
  {
    if |labels| > 0 {
      var h, t := labels[0], labels[1..];
      assert Tagged(t, fold) by {
        assert forall l :: l in t ==> l in labels;
      }
      PartitionAccountsForEveryEvent(t, fold);
      var tag := h.tags[fold];
      var one := multiset{h};
      SelectHead(labels, fold, TrainTag);
      SelectHead(labels, fold, DevTag);
      SelectHead(labels, fold, TestTag);
      OthersHead(labels, fold);
      var a, b, c, d := multiset(Select(t, fold, TrainTag)), multiset(Select(t, fold, DevTag)),
                        multiset(Select(t, fold, TestTag)), multiset(Others(t, fold));
      assert multiset(labels) == one + (a + b + c + d) by {
        assert labels == [h] + t;
      }
      var inOthers := tag != TrainTag && tag != DevTag && tag != TestTag;
      OneMore(one, a, b, c, d, tag == TrainTag, tag == DevTag, tag == TestTag, inOthers);
    }
  }

  /** Helper: adding one event to exactly one of four parts adds it once to
      their sum. */
  lemma OneMore<T>(one: multiset<T>, a: multiset<T>, b: multiset<T>, c: multiset<T>, d: multiset<T>,
                   inA: bool, inB: bool, inC: bool, inD: bool)
    requires (inA && !inB && !inC && !inD) || (!inA && inB && !inC && !inD) ||
             (!inA && !inB && inC && !inD) || (!inA && !inB && !inC && inD)
    ensures (if inA then one else multiset{}) + a + ((if inB then one else multiset{}) + b) +
            ((if inC then one else multiset{}) + c) + ((if inD then one else multiset{}) + d) ==
            one + (a + b + c + d)
  {
  }

  /** Helper: the multiset a filter keeps from a list is what it keeps from
      the head plus what it keeps from the tail. */
  lemma SelectHead(labels: seq<Label>, fold: int, tag: string)
    requires Tagged(labels, fold) && |labels| > 0
    ensures Tagged(labels[1..], fold)
    ensures multiset(Select(labels, fold, tag)) ==
            (if labels[0].tags[fold] == tag then multiset{labels[0]} else multiset{}) +
            multiset(Select(labels[1..], fold, tag))
  {
    assert forall l :: l in labels[1..] ==> l in labels;
  }

  /** Helper: the same for the dropped events. */
  lemma OthersHead(labels: seq<Label>, fold: int)
    requires Tagged(labels, fold) && |labels| > 0
    ensures Tagged(labels[1..], fold)
    ensures multiset(Others(labels, fold)) ==
            (if labels[0].tags[fold] != TrainTag && labels[0].tags[fold] != DevTag &&
                labels[0].tags[fold] != TestTag then multiset{labels[0]} else multiset{}) +
            multiset(Others(labels[1..], fold))
  {
    assert forall l :: l in labels[1..] ==> l in labels;
  }

  /** The splits together hold every event exactly when every event is tagged
      `'train'`, `'dev'` or `'test'` for this fold. */
  lemma SplitsCoverIffAllTagged(labels: seq<Label>, fold: int)
    requires Partition(labels, fold).Ok?
    ensures var s := Partition(labels, fold).value;
            multiset(s.train) + multiset(s.dev) + multiset(s.test) == multiset(labels) <==>
              forall l :: l in labels ==> l.tags[fold] in {TrainTag, DevTag, TestTag}
  {
    PartitionAccountsForEveryEvent(labels, fold);
    var others := Others(labels, fold);
    if others != [] {
      assert others[0] in others;
      assert multiset(others) != multiset{};
    }
  }
}
