/** The signal store of `load_pickles`: the binned signal, its stitch (segment
    boundary) index and the labelled word events, with the two shape checks the
    loader performs and the `0` sentinel it prepends to the boundary list. */
module SignalStore {
  import opened Results

  /** The binned signal: one row per coarse time bin, one column per electrode.
      `width` is the array's second dimension, which numpy keeps even when there
      are no rows. */
  datatype SignalMatrix = SignalMatrix(rows: seq<seq<real>>, width: nat) {
    /** A numpy 2-D array is rectangular. */
    predicate Rectangular() {
      forall i :: 0 <= i < |rows| ==> |rows[i]| == width
    }
  }

  /** The signal archive as unpickled: `binned_signal`, `bin_stitch_index` and
      the number of entries of `electrodes` (only its length is ever used). */
  datatype SignalArchive = SignalArchive(binnedSignal: SignalMatrix, binStitchIndex: seq<int>, electrodes: nat)

  /** One labelled word event. `tags` maps a fold number `i` to the value of the
      event's `fold{i}` entry; a fold without an entry is a missing key. */
  datatype Label = Label(onset: int, word: string, tags: map<int, string>)

  /** What the loader hands to the rest of the pipeline. */
  datatype Store = Store(signal: SignalMatrix, stitch: seq<int>)

  predicate Increasing(s: seq<int>) {
    forall i, j :: 0 <= i < j < |s| ==> s[i] < s[j]
  }

  /** The segment invariant of a loaded stitch index over `rows` bins: it starts
      at 0, increases strictly and ends at the row count, so consecutive
      boundaries delimit the recording segments. The loader does not check it. */
  predicate Covers(stitch: seq<int>, rows: nat) {
    && |stitch| >= 2
    && stitch[0] == 0
    && Increasing(stitch)
    && stitch[|stitch| - 1] == rows
  }

  /** `load_pickles` after the files are read: the row count must equal the last
      raw boundary (an empty boundary list fails on `[-1]`), the column count
      must equal the electrode count, and then `0` is prepended. */
  function Load(a: SignalArchive): (r: Result<Store>)
    ensures r.Ok? <==>
              && |a.binStitchIndex| > 0
              && |a.binnedSignal.rows| == a.binStitchIndex[|a.binStitchIndex| - 1]
              && a.binnedSignal.width == a.electrodes
    ensures r == Err(EmptyStitchIndex) <==> |a.binStitchIndex| == 0
    ensures r == Err(IncorrectStitching) <==>
              |a.binStitchIndex| > 0 && |a.binnedSignal.rows| != a.binStitchIndex[|a.binStitchIndex| - 1]
    ensures r == Err(IncorrectElectrodes) <==>
              && |a.binStitchIndex| > 0
              && |a.binnedSignal.rows| == a.binStitchIndex[|a.binStitchIndex| - 1]
              && a.binnedSignal.width != a.electrodes
    ensures r.Ok? ==> r.value.signal == a.binnedSignal
    ensures r.Ok? ==> |r.value.stitch| == |a.binStitchIndex| + 1 && r.value.stitch[0] == 0
    ensures r.Ok? ==> forall k :: 0 <= k < |a.binStitchIndex| ==> r.value.stitch[k + 1] == a.binStitchIndex[k]
  {
    if |a.binStitchIndex| == 0 then Err(EmptyStitchIndex)
    else if |a.binnedSignal.rows| != a.binStitchIndex[|a.binStitchIndex| - 1] then Err(IncorrectStitching)
    else if a.binnedSignal.width != a.electrodes then Err(IncorrectElectrodes)
    else Ok(Store(a.binnedSignal, [0] + a.binStitchIndex))
  }

  /** A successful load yields a stitch index that covers the signal exactly
      when the raw boundary list increases strictly from a positive first
      boundary. */
  lemma LoadCoversIff(a: SignalArchive)
    requires Load(a).Ok?
    ensures Covers(Load(a).value.stitch, |a.binnedSignal.rows|) <==>
              Increasing(a.binStitchIndex) && a.binStitchIndex[0] > 0
  {
    var raw := a.binStitchIndex;
    var s := Load(a).value.stitch;
    assert s == [0] + raw;
    if Increasing(raw) && raw[0] > 0 {
      forall i, j | 0 <= i < j < |s|
        ensures s[i] < s[j]
      {
        if i > 0 {
          assert s[i] == raw[i - 1] && s[j] == raw[j - 1];
        } else {
          assert raw[0] <= s[j] by {
            if j > 1 {
              assert s[j] == raw[j - 1];
            }
          }
        }
      }
    }
    if Covers(s, |a.binnedSignal.rows|) {
      assert s[1] == raw[0];
      forall i, j | 0 <= i < j < |raw|
        ensures raw[i] < raw[j]
      {
        assert raw[i] == s[i + 1] && raw[j] == s[j + 1];
      }
    }
  }
}
