/** The bookkeeping of the `WeightAverager` training callback: a list of
    parameter snapshots, one appended per epoch, from which the oldest is
    dropped once the list reaches `patience + epoch_count / 2`; at the end of
    training a running mean over the oldest retained snapshots replaces the
    weights. Snapshots are single reals: the source averages every parameter
    independently, so one coordinate shows the whole computation. */
module WeightAverager {

  /** The callback's state; `snapshots` is oldest first. */
  datatype Averager = Averager(epochCount: int, patience: int, snapshots: seq<real>)

  /** What `on_train_end` does to the model's weights. */
  datatype TrainEnd = KeptWeights | Averaged(weights: real, count: nat)

  function Min(a: int, b: int): int {
    if a <= b then a else b
  }

  function Max(a: int, b: int): int {
    if a <= b then b else a
  }

  /** `__init__`: the averaging count is capped at twice the patience. */
  function Init(nWeightAvg: int, patience: int): (a: Averager)
    ensures a.snapshots == [] && a.patience == patience
    ensures a.epochCount <= nWeightAvg && a.epochCount <= 2 * patience
    ensures a.epochCount == nWeightAvg || a.epochCount == 2 * patience
  {
    Averager(Min(nWeightAvg, 2 * patience), patience, [])
  }

  /** `patience + epoch_count / 2`, a float in the source (true division). */
  function Cap(a: Averager): real {
    a.patience as real + a.epochCount as real / 2.0
  }

  /** The integer cap `patience + epoch_count // 2`. */
  function IntCap(a: Averager): int {
    a.patience + a.epochCount / 2
  }

  /** The eviction test of `on_epoch_end`: a non-empty list whose length
      equals the cap exactly. */
  predicate Evicts(a: Averager) {
    |a.snapshots| > 0 && |a.snapshots| as real == Cap(a)
  }

  /** `on_epoch_end` as written: maybe drop the oldest snapshot, then append. */
  function OnEpochEnd(a: Averager, snapshot: real): (b: Averager)
    ensures b.epochCount == a.epochCount && b.patience == a.patience
    ensures |b.snapshots| > 0 && b.snapshots[|b.snapshots| - 1] == snapshot
    ensures b.snapshots[..|b.snapshots| - 1] == if Evicts(a) then a.snapshots[1..] else a.snapshots
  {
    var kept := if Evicts(a) then a.snapshots[1..] else a.snapshots;
    a.(snapshots := kept + [snapshot])
  }

  /** The callback across a sequence of epochs. */
  function Run(a: Averager, epochs: seq<real>): (b: Averager)
    decreases |epochs|
    ensures b.epochCount == a.epochCount && b.patience == a.patience
    ensures |b.snapshots| <= |a.snapshots| + |epochs|
  {
    if |epochs| == 0 then a else Run(OnEpochEnd(a, epochs[0]), epochs[1..])
  }

  /** The float comparison holds only for an even `epoch_count`, and then it
      is the integer test `len == patience + epoch_count // 2`. */
  lemma EvictsIffEvenAtCap(a: Averager)
    ensures Evicts(a) <==>
              && |a.snapshots| > 0
              && a.epochCount % 2 == 0
              && |a.snapshots| == IntCap(a)
  {
    var n, e, p := |a.snapshots|, a.epochCount, a.patience;
    if n as real == Cap(a) {
      assert 2 * n == 2 * p + e;
    }
  }

  /** Whatever `epoch_count`, the callback only ever drops the oldest
      snapshots: the list is a suffix of everything it was given. */
  lemma {:induction false} RunKeepsASuffix(a: Averager, epochs: seq<real>) returns (k: nat)
    decreases |epochs|
    ensures k <= |a.snapshots + epochs|
    ensures Run(a, epochs).snapshots == (a.snapshots + epochs)[k..]
  {
    if |epochs| == 0 {
      k := 0;
      assert a.snapshots + epochs == a.snapshots;
    } else {
      var b := OnEpochEnd(a, epochs[0]);
      var d := if Evicts(a) then 1 else 0;
      assert b.snapshots == a.snapshots[d..] + [epochs[0]];
      var k' := RunKeepsASuffix(b, epochs[1..]);
      DropThenAppend(a.snapshots, epochs, d);
      k := k' + d;
      assert Run(a, epochs) == Run(b, epochs[1..]);
    }
  }

  /** The most recent `min(|all|, c)` elements of `all`. */
  function KeepLast(all: seq<real>, c: nat): (r: seq<real>)
    ensures |r| == Min(|all|, c)
  {
    all[|all| - Min(|all|, c)..]
  }

  /** Helper: one epoch of a callback that keeps the most recent `c`
      snapshots, followed by the remaining epochs, keeps the most recent `c`
      of the whole stream. */
  lemma KeepLastStep(prior: seq<real>, epochs: seq<real>, next: seq<real>, c: nat)
    requires |epochs| > 0 && |prior| <= c
    requires next == KeepLast(prior + [epochs[0]], c)
    ensures KeepLast(next + epochs[1..], c) == KeepLast(prior + epochs, c)
  {
    var all := prior + epochs;
    assert prior + [epochs[0]] + epochs[1..] == all by {
      assert epochs == [epochs[0]] + epochs[1..];
    }
    if |prior| == c {
      assert next == (prior + [epochs[0]])[1..];
      assert next + epochs[1..] == all[1..];
      assert all[1..][|all| - 1 - c..] == all[|all| - c..];
    } else {
      assert next == prior + [epochs[0]];
    }
  }

  /** With an even `epoch_count` and an integer cap of at least one, an epoch
      keeps the most recent `cap` snapshots. */
  lemma EvenCountEpochKeepsLast(a: Averager, snapshot: real)
    requires a.epochCount % 2 == 0
    requires IntCap(a) >= 1
    requires |a.snapshots| <= IntCap(a)
    ensures OnEpochEnd(a, snapshot).snapshots == KeepLast(a.snapshots + [snapshot], IntCap(a))
  {
    EvictsIffEvenAtCap(a);
    var all := a.snapshots + [snapshot];
    if Evicts(a) {
      assert all[1..] == a.snapshots[1..] + [snapshot];
    } else {
      assert all[0..] == all;
    }
  }

  /** With an even `epoch_count` and a cap of at least one, the callback keeps
      exactly the most recent `min(total, cap)` snapshots. */
  lemma {:induction false} EvenCountRetainsMostRecent(a: Averager, epochs: seq<real>)
    decreases |epochs|
    requires a.epochCount % 2 == 0
    requires IntCap(a) >= 1
    requires |a.snapshots| <= IntCap(a)
    ensures Run(a, epochs).snapshots == KeepLast(a.snapshots + epochs, IntCap(a))
  {
    var c := IntCap(a);
    if |epochs| == 0 {
      assert a.snapshots + epochs == a.snapshots;
    } else {
      var b := OnEpochEnd(a, epochs[0]);
      assert Run(a, epochs) == Run(b, epochs[1..]);
      EvenCountEpochKeepsLast(a, epochs[0]);
      assert b.snapshots == KeepLast(a.snapshots + [epochs[0]], c);
      assert IntCap(b) == c && |b.snapshots| <= c;
      EvenCountRetainsMostRecent(b, epochs[1..]);
      KeepLastStep(a.snapshots, epochs, b.snapshots, c);
    }
  }

  /** Helper: dropping `d` old snapshots and appending the next epoch leaves
      the rest of the stream a suffix of the whole stream. */
  lemma DropThenAppend(prior: seq<real>, epochs: seq<real>, d: nat)
    requires d <= |prior| && |epochs| > 0
    ensures prior[d..] + [epochs[0]] + epochs[1..] == (prior + epochs)[d..]
  {
    assert epochs == [epochs[0]] + epochs[1..];
  }

  /** As written: with an odd `epoch_count` the float cap is never an
      integer, so no snapshot is ever dropped and the list holds every epoch. */
  lemma {:induction false} OddCountNeverEvicts(a: Averager, epochs: seq<real>)
    decreases |epochs|
    requires a.epochCount % 2 == 1
    ensures Run(a, epochs).snapshots == a.snapshots + epochs
  {
    if |epochs| > 0 {
      EvictsIffEvenAtCap(a);
      OddCountNeverEvicts(OnEpochEnd(a, epochs[0]), epochs[1..]);
      assert a.snapshots + [epochs[0]] + epochs[1..] == a.snapshots + epochs;
    }
  }

  /** As written, on a concrete input: `n_weight_avg = 3`, `patience = 150` gives a
      cap of 151.5, yet after 200 epochs all 200 snapshots are retained. */
  lemma OddCountExceedsCap()
    ensures var a := Run(Init(3, 150), seq(200, i => 0.0));
            a.epochCount == 3 && Cap(a) == 151.5 && |a.snapshots| == 200
  {
    OddCountNeverEvicts(Init(3, 150), seq(200, i => 0.0));
  }

  /** `on_epoch_end` corrected: drop the oldest snapshot whenever the list has
      reached the integer cap, so that at most `max(1, cap)` are retained for
      every count. */
  function OnEpochEndCorrected(a: Averager, snapshot: real): (b: Averager)
    requires |a.snapshots| <= Max(1, IntCap(a))
    ensures b.epochCount == a.epochCount && b.patience == a.patience
    ensures b.snapshots == KeepLast(a.snapshots + [snapshot], Max(1, IntCap(a)))
  {
    var evict := |a.snapshots| > 0 && |a.snapshots| >= IntCap(a);
    var all := a.snapshots + [snapshot];
    var kept := if evict then a.snapshots[1..] else a.snapshots;
    assert kept + [snapshot] == all[if evict then 1 else 0..];
    a.(snapshots := kept + [snapshot])
  }

  /** The corrected callback across a sequence of epochs. */
  function RunCorrected(a: Averager, epochs: seq<real>): (b: Averager)
    decreases |epochs|
    requires |a.snapshots| <= Max(1, IntCap(a))
    ensures b.epochCount == a.epochCount && b.patience == a.patience
    ensures |b.snapshots| <= Max(1, IntCap(b))
  {
    if |epochs| == 0 then a else RunCorrected(OnEpochEndCorrected(a, epochs[0]), epochs[1..])
  }

  /** The corrected callback keeps exactly the most recent
      `min(total, max(1, cap))` snapshots, for an odd count as well. */
  lemma {:induction false} CorrectedRetainsMostRecent(a: Averager, epochs: seq<real>)
    decreases |epochs|
    requires |a.snapshots| <= Max(1, IntCap(a))
    ensures RunCorrected(a, epochs).snapshots == KeepLast(a.snapshots + epochs, Max(1, IntCap(a)))
  {
    if |epochs| == 0 {
      assert a.snapshots + epochs == a.snapshots;
    } else {
      var b := OnEpochEndCorrected(a, epochs[0]);
      CorrectedRetainsMostRecent(b, epochs[1..]);
      KeepLastStep(a.snapshots, epochs, b.snapshots, Max(1, IntCap(a)));
    }
  }

  /** Where the source's bound is meaningful (an even count) the correction
      changes nothing. */
  lemma CorrectedAgreesForEvenCount(a: Averager, snapshot: real)
    requires a.epochCount % 2 == 0
    requires IntCap(a) >= 1 && |a.snapshots| <= IntCap(a)
    ensures OnEpochEndCorrected(a, snapshot) == OnEpochEnd(a, snapshot)
  {
    EvictsIffEvenAtCap(a);
  }

  /** A training run of the corrected callback: one snapshot per epoch, then
      the averaging of `on_train_end`. The averaged snapshots are the oldest of
      the retained, most recent ones. */
  method TrainAndAverage(nWeightAvg: int, patience: int, epochs: seq<real>) returns (r: TrainEnd)
    ensures r.KeptWeights? <==> |epochs| == 0
    ensures var a := Init(nWeightAvg, patience);
            var retained := KeepLast(epochs, Max(1, IntCap(a)));
            r.Averaged? ==>
              && r.count == Min(|retained|, Max(a.epochCount, 0) + 1)
              && r.weights == Sum(retained[..r.count]) / (r.count as real)
  {
    var b := Train(nWeightAvg, patience, epochs);
    r := OnTrainEnd(b);
    RetainedIsEmptyIffNoEpochs(epochs, Max(1, IntCap(Init(nWeightAvg, patience))));
  }

  /** The training run of the corrected callback from a fresh averager: it
      retains the most recent `min(n, max(1, cap))` epochs. */
  method Train(nWeightAvg: int, patience: int, epochs: seq<real>) returns (b: Averager)
    ensures var a := Init(nWeightAvg, patience);
            && b.epochCount == a.epochCount && b.patience == a.patience
            && b.snapshots == KeepLast(epochs, Max(1, IntCap(a)))
  {
    var a := Init(nWeightAvg, patience);
    b := RunCorrected(a, epochs);
    var retained := RetainedFromStart(a, epochs);
  }

  /** Helper: a positive retention bound keeps something of a non-empty stream. */
  lemma RetainedIsEmptyIffNoEpochs(epochs: seq<real>, c: nat)
    requires c >= 1
    ensures |KeepLast(epochs, c)| == 0 <==> |epochs| == 0
  {
  }

  /** Helper: from an empty list, the corrected callback retains the most
      recent `min(n, max(1, cap))` epochs. */
  lemma RetainedFromStart(a: Averager, epochs: seq<real>) returns (retained: seq<real>)
    requires a.snapshots == []
    ensures retained == RunCorrected(a, epochs).snapshots
    ensures retained == KeepLast(epochs, Max(1, IntCap(a)))
  {
    CorrectedRetainsMostRecent(a, epochs);
    assert a.snapshots + epochs == epochs;
    retained := RunCorrected(a, epochs).snapshots;
  }

  function Sum(xs: seq<real>): real {
    if |xs| == 0 then 0.0 else Sum(xs[..|xs| - 1]) + xs[|xs| - 1]
  }

  /** `on_train_end`: the running mean `w = (w * p + nw) / (p + 1)` over the
      snapshots, oldest first, stopping after position `epoch_count`; so it
      averages the first `min(len, max(epoch_count, 0) + 1)` snapshots. With no
      snapshot the weights are left alone. */
  method OnTrainEnd(a: Averager) returns (r: TrainEnd)
    ensures r.KeptWeights? <==> |a.snapshots| == 0
    ensures r.Averaged? ==> r.count == Min(|a.snapshots|, Max(a.epochCount, 0) + 1)
    ensures r.Averaged? ==> r.weights == Sum(a.snapshots[..r.count]) / (r.count as real)
  {
    var s := a.snapshots;
    if |s| == 0 {
      return KeptWeights;
    }
    var w: real := 0.0;
    var p := 0;
    var stop := false;
    while p < |s| && !stop
      invariant 0 <= p <= |s|
      invariant p > 0 ==> w == Sum(s[..p]) / (p as real)
      invariant p == 0 ==> w == 0.0
      invariant stop <==> p > 0 && p - 1 >= a.epochCount
      invariant p <= Max(a.epochCount, 0) + 1
      decreases |s| - p
    {
      assert s[..p + 1][..p] == s[..p];
      RunningMeanStep(Sum(s[..p]), w, p, s[p]);
      w := (w * (p as real) + s[p]) / ((p + 1) as real);
      stop := p >= a.epochCount;
      p := p + 1;
    }
    return Averaged(w, p);
  }

  /** Helper: one step of the running mean turns the mean of `p` values into
      the mean of `p + 1`. */
  lemma RunningMeanStep(total: real, w: real, p: nat, x: real)
    requires p > 0 ==> w == total / (p as real)
    requires p == 0 ==> w == 0.0 && total == 0.0
    ensures (w * (p as real) + x) / ((p + 1) as real) == (total + x) / ((p + 1) as real)
  {
    if p > 0 {
      assert w * (p as real) == total;
    }
  }
}
