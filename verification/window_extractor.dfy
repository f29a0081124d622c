/** `extract_signal_from_fold`: every labelled event is mapped to a coarse bin,
    located in its recording segment, and given a lag-shifted window of
    `2 * halfWindow` bins that is kept only when it lies wholly inside that
    segment. The kept windows are sliced out of the signal and stacked. */
module WindowExtractor {
  import opened Results
  import opened SignalStore

  /** Samples per coarse bin (the `// 32` of the source). */
  const BinSize := 32

  /** Python's `sample // 32`: floor division, also for negative samples. */
  function Bin(sample: int): (b: int)
    ensures BinSize * b <= sample < BinSize * b + BinSize
  {
    sample / BinSize
  }

  /** The recording segment `[start, stop)` an event was assigned to. */
  datatype Segment = Segment(start: int, stop: int)

  /** A kept window `[left, right)` of bins and the word of its event. */
  datatype Window = Window(left: int, right: int, word: string)

  /** `k` is the rank numpy finds: the LAST position whose boundary lies
      strictly below `bin`. */
  predicate IsRank(stitch: seq<int>, bin: int, k: int) {
    && 0 <= k < |stitch|
    && stitch[k] < bin
    && forall j :: k < j < |stitch| ==> bin <= stitch[j]
  }

  /** The last position of `stitch` holding a value below `bin`, if any. */
  function LastBelow(stitch: seq<int>, bin: int): (r: Option<nat>)
    ensures r.Some? ==> IsRank(stitch, bin, r.value)
    ensures r.None? ==> forall k :: 0 <= k < |stitch| ==> bin <= stitch[k]
  {
    if |stitch| == 0 then None
    else if stitch[|stitch| - 1] < bin then Some(|stitch| - 1)
    else LastBelow(stitch[..|stitch| - 1], bin)
  }

  /** The segment lookup: `bin_rank = (stitch < bin).nonzero()[0][-1]`, which
      fails when no boundary is below the bin, then `stitch[bin_rank]` and
      `stitch[bin_rank + 1]`, which fails when the rank is the last position. */
  function SegmentOf(stitch: seq<int>, bin: int): (r: Result<Segment>)
    ensures r.Ok? <==> exists k :: IsRank(stitch, bin, k) && k + 1 < |stitch|
    ensures r.Ok? ==> exists k :: IsRank(stitch, bin, k) && k + 1 < |stitch| &&
                                  r.value == Segment(stitch[k], stitch[k + 1])
    ensures r == Err(NoBoundaryBelow(bin)) <==> forall k :: 0 <= k < |stitch| ==> bin <= stitch[k]
    ensures r == Err(NoBoundaryAfter(bin)) <==> |stitch| > 0 && stitch[|stitch| - 1] < bin
  {
    match LastBelow(stitch, bin)
    case None => Err(NoBoundaryBelow(bin))
    case Some(k) =>
      if k + 1 < |stitch| then
        assert IsRank(stitch, bin, k);
        Ok(Segment(stitch[k], stitch[k + 1]))
      else
        Err(NoBoundaryAfter(bin))
  }

  /** One iteration of the loop: the event's segment lookup must succeed; the
      window `[bin + lagBin - halfWindow, bin + lagBin + halfWindow)` is kept
      when it lies inside the segment and silently dropped otherwise. */
  function Place(stitch: seq<int>, e: Label, lagBin: int, halfWindow: int): (r: Result<Option<Window>>)
    ensures r.Ok? <==> SegmentOf(stitch, Bin(e.onset)).Ok?
    ensures r.Ok? && r.value.Some? ==>
              var w := r.value.value;
              var seg := SegmentOf(stitch, Bin(e.onset)).value;
              && w.left == Bin(e.onset) + lagBin - halfWindow
              && w.right - w.left == 2 * halfWindow
              && w.word == e.word
              && seg.start <= w.left && w.right <= seg.stop
    ensures r.Err? ==> r.error == SegmentOf(stitch, Bin(e.onset)).error
  {
    var bin := Bin(e.onset);
    var seg :- SegmentOf(stitch, bin);
    var left := bin + lagBin - halfWindow;
    var right := bin + lagBin + halfWindow;
    if left < seg.start || right > seg.stop then Ok(None)
    else Ok(Some(Window(left, right, e.word)))
  }

  /** The loop over all events, in order; the first failing lookup aborts. */
  function Collect(stitch: seq<int>, events: seq<Label>, lagBin: int, halfWindow: int): (r: Result<seq<Window>>)
    ensures r.Ok? <==> forall i :: 0 <= i < |events| ==> Place(stitch, events[i], lagBin, halfWindow).Ok?
    ensures r.Err? ==> exists i :: && 0 <= i < |events|
                                   && Place(stitch, events[i], lagBin, halfWindow).Err?
                                   && r.error == Place(stitch, events[i], lagBin, halfWindow).error
                                   && forall k :: 0 <= k < i ==> Place(stitch, events[k], lagBin, halfWindow).Ok?
    ensures r.Ok? ==> |r.value| <= |events|
    ensures r.Ok? ==> forall j :: 0 <= j < |r.value| ==> r.value[j].right - r.value[j].left == 2 * halfWindow
  {
    if |events| == 0 then Ok([])
    else
      var p :- Place(stitch, events[0], lagBin, halfWindow);
      var rest :- Collect(stitch, events[1..], lagBin, halfWindow);
      assert forall i :: 1 <= i < |events| ==> events[i] == events[1..][i - 1];
      Ok(if p.Some? then [p.value] + rest else rest)
  }

  /** Python slicing `s[lo:hi]`: negative bounds count from the end, bounds
      beyond the ends are clipped, and an inverted range is empty. */
  function PySlice<T>(s: seq<T>, lo: int, hi: int): (r: seq<T>)
    ensures |r| <= |s|
    ensures 0 <= lo <= hi <= |s| ==> r == s[lo..hi]
  {
    var a := Clip(lo, |s|);
    var b := Clip(hi, |s|);
    if a <= b then s[a..b] else []
  }

  /** Normalisation of one slice bound against a length `n`. */
  function Clip(i: int, n: nat): (r: nat)
    ensures r <= n
    ensures 0 <= i <= n ==> r == i
  {
    if i < 0 then (if i + n < 0 then 0 else i + n)
    else if i > n then n
    else i
  }

  /** The stacked windows and their words: `x` and `w` of the source. */
  datatype Extracted = Extracted(x: seq<seq<seq<real>>>, w: seq<string>)

  /** `np.stack(x, axis=0)`: fails on an empty list and on windows of
      different shapes (the rows of one signal all have the same width). */
  function Stack(slices: seq<seq<seq<real>>>): (r: Result<seq<seq<seq<real>>>>)
    ensures r.Ok? <==> |slices| > 0 && forall i :: 0 <= i < |slices| ==> |slices[i]| == |slices[0]|
    ensures r.Ok? ==> r.value == slices
    ensures |slices| == 0 ==> r == Err(NothingToStack)
  {
    if |slices| == 0 then Err(NothingToStack)
    else if exists i :: 0 <= i < |slices| && |slices[i]| != |slices[0]| then Err(ShapeMismatch)
    else Ok(slices)
  }

  /** `extract_signal_from_fold`, with the signal passed explicitly. */
  function Extract(signal: SignalMatrix, stitch: seq<int>, events: seq<Label>, lag: int, halfWindow: int)
    : (r: Result<Extracted>)
    ensures r.Ok? ==> Collect(stitch, events, Bin(lag), halfWindow).Ok?
    ensures r.Ok? ==>
              var ws := Collect(stitch, events, Bin(lag), halfWindow).value;
              && |r.value.x| == |r.value.w| == |ws| > 0
              && (forall i :: 0 <= i < |ws| ==> r.value.x[i] == PySlice(signal.rows, ws[i].left, ws[i].right))
              && (forall i :: 0 <= i < |ws| ==> r.value.w[i] == ws[i].word)
    ensures Collect(stitch, events, Bin(lag), halfWindow).Err? ==>
              r == Err(Collect(stitch, events, Bin(lag), halfWindow).error)
    ensures (Collect(stitch, events, Bin(lag), halfWindow).Ok? &&
             |Collect(stitch, events, Bin(lag), halfWindow).value| == 0) ==> r == Err(NothingToStack)
  {
    var ws :- Collect(stitch, events, Bin(lag), halfWindow);
    var slices := seq(|ws|, i requires 0 <= i < |ws| => PySlice(signal.rows, ws[i].left, ws[i].right));
    var x :- Stack(slices);
    Ok(Extracted(x, seq(|ws|, i requires 0 <= i < |ws| => ws[i].word)))
  }

  // ---------------------------------------------------------------------------
  // Properties of the segment lookup and of the acceptance rule
  // ---------------------------------------------------------------------------

  /** On an increasing stitch index the lookup finds the segment whose start
      lies strictly below the bin and whose stop is at or above it. */
  lemma SegmentContainsBin(stitch: seq<int>, bin: int)
    requires Increasing(stitch)
    requires SegmentOf(stitch, bin).Ok?
    ensures SegmentOf(stitch, bin).value.start < bin <= SegmentOf(stitch, bin).value.stop
  {
  }

  /** Conversely, a bin with `stitch[k] < bin <= stitch[k + 1]` belongs to
      segment `k`; in particular a bin lying exactly on a boundary belongs to
      the segment that ends there, not the one that starts there. */
  lemma SegmentOfContainingBin(stitch: seq<int>, bin: int, k: int)
    requires Increasing(stitch)
    requires 0 <= k && k + 1 < |stitch|
    requires stitch[k] < bin <= stitch[k + 1]
    ensures SegmentOf(stitch, bin) == Ok(Segment(stitch[k], stitch[k + 1]))
  {
    assert IsRank(stitch, bin, k);
  }

  /** Under the segment invariant the lookup succeeds exactly for bins in
      `(0, rows]`; a bin of 0 or below has no boundary under it and a bin past
      the last boundary has no boundary after its rank. */
  lemma LookupSucceedsIffBinInRange(stitch: seq<int>, rows: nat, bin: int)
    requires Covers(stitch, rows)
    ensures SegmentOf(stitch, bin).Ok? <==> 0 < bin <= rows
    ensures bin <= 0 ==> SegmentOf(stitch, bin) == Err(NoBoundaryBelow(bin))
    ensures bin > rows ==> SegmentOf(stitch, bin) == Err(NoBoundaryAfter(bin))
  {
    if 0 < bin <= rows {
      var k := LastIndexBelow(stitch, bin);
      SegmentOfContainingBin(stitch, bin, k);
    }
  }

  /** Helper: in an increasing sequence starting below `bin` and ending at or
      above it, some consecutive pair brackets `bin`. */
  lemma LastIndexBelow(stitch: seq<int>, bin: int) returns (k: int)
    requires Increasing(stitch) && |stitch| >= 2
    requires stitch[0] < bin <= stitch[|stitch| - 1]
    ensures 0 <= k && k + 1 < |stitch| && stitch[k] < bin <= stitch[k + 1]
  {
    k := 0;
    while stitch[k + 1] < bin
      invariant 0 <= k && k + 1 < |stitch|
      invariant stitch[k] < bin
      decreases |stitch| - k
    {
      k := k + 1;
    }
  }

  /** The acceptance rule: once the lookup succeeds, an event yields a window
      exactly when the lag-shifted window lies inside its segment; nothing is
      clipped. */
  lemma AcceptedIffInsideSegment(stitch: seq<int>, e: Label, lagBin: int, halfWindow: int)
    requires SegmentOf(stitch, Bin(e.onset)).Ok?
    ensures var seg := SegmentOf(stitch, Bin(e.onset)).value;
            Place(stitch, e, lagBin, halfWindow).value.Some? <==>
              seg.start <= Bin(e.onset) + lagBin - halfWindow && Bin(e.onset) + lagBin + halfWindow <= seg.stop
  {
  }

  /** A kept window never spans a stitch boundary: no boundary lies strictly
      inside `[left, right)`. */
  lemma NoBoundaryInsideWindow(stitch: seq<int>, e: Label, lagBin: int, halfWindow: int)
    requires Increasing(stitch)
    requires Place(stitch, e, lagBin, halfWindow).Ok? && Place(stitch, e, lagBin, halfWindow).value.Some?
    ensures var w := Place(stitch, e, lagBin, halfWindow).value.value;
            forall j :: 0 <= j < |stitch| ==> !(w.left < stitch[j] < w.right)
  {
    var w := Place(stitch, e, lagBin, halfWindow).value.value;
    var bin := Bin(e.onset);
    var k :| IsRank(stitch, bin, k) && k + 1 < |stitch| &&
             SegmentOf(stitch, bin).value == Segment(stitch[k], stitch[k + 1]);
    forall j | 0 <= j < |stitch|
      ensures !(w.left < stitch[j] < w.right)
    {
      if j <= k {
        assert stitch[j] <= stitch[k];
      } else {
        assert stitch[k + 1] <= stitch[j];
      }
    }
  }

  // ---------------------------------------------------------------------------
  // Properties of the loop and of the stacked result
  // ---------------------------------------------------------------------------

  /** The outcome of the loop body for every event, in order. */
  function Outcomes(stitch: seq<int>, events: seq<Label>, lagBin: int, halfWindow: int)
    : (outs: seq<Result<Option<Window>>>)
    ensures |outs| == |events|
    ensures forall i :: 0 <= i < |events| ==> outs[i] == Place(stitch, events[i], lagBin, halfWindow)
  {
    seq(|events|, i requires 0 <= i < |events| => Place(stitch, events[i], lagBin, halfWindow))
  }

  /** `idx` lists positions below `n` in increasing order. */
  ghost predicate Ordered(n: nat, idx: seq<nat>) {
    && (forall j :: 0 <= j < |idx| ==> idx[j] < n)
    && (forall j, j' :: 0 <= j < j' < |idx| ==> idx[j] < idx[j'])
  }

  /** `ws[j]` is the window kept at position `idx[j]`. */
  ghost predicate Matches(outs: seq<Result<Option<Window>>>, ws: seq<Window>, idx: seq<nat>) {
    && |idx| == |ws|
    && (forall j :: 0 <= j < |idx| ==> idx[j] < |outs| && outs[idx[j]] == Ok(Some(ws[j])))
  }

  /** Every position whose outcome keeps a window is listed in `idx`. */
  ghost predicate Complete(outs: seq<Result<Option<Window>>>, idx: seq<nat>) {
    forall i :: 0 <= i < |outs| && outs[i].Ok? && outs[i].value.Some? ==> i in idx
  }

  /** `idx` lists, in increasing order, exactly the positions whose outcome
      keeps a window, and `ws[j]` is the window kept at position `idx[j]`. */
  ghost predicate Selects(outs: seq<Result<Option<Window>>>, ws: seq<Window>, idx: seq<nat>) {
    Ordered(|outs|, idx) && Matches(outs, ws, idx) && Complete(outs, idx)
  }

  /** The kept windows are exactly the windows of the accepted events, in the
      order of the events; an event that is dropped contributes nothing. */
  lemma {:induction false} CollectIsOrderedSelection(stitch: seq<int>, events: seq<Label>, lagBin: int, halfWindow: int)
    returns (idx: seq<nat>)
    requires Collect(stitch, events, lagBin, halfWindow).Ok?
    ensures Selects(Outcomes(stitch, events, lagBin, halfWindow), Collect(stitch, events, lagBin, halfWindow).value, idx)
  {
    if |events| == 0 {
      idx := [];
    } else {
      var outs := Outcomes(stitch, events, lagBin, halfWindow);
      CollectStep(stitch, events, lagBin, halfWindow);
      var rest := CollectIsOrderedSelection(stitch, events[1..], lagBin, halfWindow);
      assert outs[1..] == Outcomes(stitch, events[1..], lagBin, halfWindow);
      idx := SelectsStep(outs, Collect(stitch, events, lagBin, halfWindow).value,
                         Collect(stitch, events[1..], lagBin, halfWindow).value, rest);
    }
  }

  /** Helper: a selection from the tail's outcomes extends to the whole list. */
  lemma SelectsStep(outs: seq<Result<Option<Window>>>, ws: seq<Window>, restWs: seq<Window>, rest: seq<nat>)
    returns (idx: seq<nat>)
    requires |outs| > 0 && outs[0].Ok?
    requires ws == if outs[0].value.Some? then [outs[0].value.value] + restWs else restWs
    requires Selects(outs[1..], restWs, rest)
    ensures Selects(outs, ws, idx)
  {
    var keep := outs[0].value.Some?;
    idx := Reindex(rest, keep);
    OrderedStep(|outs| - 1, rest, keep);
    if keep {
      MatchesKeep(outs, outs[0].value.value, restWs, rest);
    } else {
      MatchesSkip(outs, restWs, rest);
    }
    CompleteStep(outs, rest, keep);
  }

  /** Helper: shifting keeps positions ordered, one further bound up. */
  lemma OrderedStep(n: nat, rest: seq<nat>, keep: bool)
    requires Ordered(n, rest)
    ensures Ordered(n + 1, Reindex(rest, keep))
  {
  }

  /** Helper: a kept head window goes in front of the tail's windows. */
  lemma MatchesKeep(outs: seq<Result<Option<Window>>>, w: Window, restWs: seq<Window>, rest: seq<nat>)
    requires |outs| > 0 && outs[0] == Ok(Some(w))
    requires Ordered(|outs| - 1, rest) && Matches(outs[1..], restWs, rest)
    ensures Matches(outs, [w] + restWs, Reindex(rest, true))
  {
    var ws, idx := [w] + restWs, Reindex(rest, true);
    forall j | 1 <= j < |idx|
      ensures idx[j] < |outs| && outs[idx[j]] == Ok(Some(ws[j]))
    {
      assert ws[j] == restWs[j - 1];
      assert outs[idx[j]] == outs[1..][rest[j - 1]];
    }
  }

  /** Helper: a dropped head leaves the tail's windows, at shifted positions. */
  lemma MatchesSkip(outs: seq<Result<Option<Window>>>, restWs: seq<Window>, rest: seq<nat>)
    requires |outs| > 0
    requires Ordered(|outs| - 1, rest) && Matches(outs[1..], restWs, rest)
    ensures Matches(outs, restWs, Reindex(rest, false))
  {
    var idx := Reindex(rest, false);
    forall j | 0 <= j < |idx|
      ensures idx[j] < |outs| && outs[idx[j]] == Ok(Some(restWs[j]))
    {
      assert outs[idx[j]] == outs[1..][rest[j]];
    }
  }

  /** Helper: every accepted position is listed once the tail's are, shifted,
      and the head is listed when it is accepted. */
  lemma CompleteStep(outs: seq<Result<Option<Window>>>, rest: seq<nat>, keep: bool)
    requires |outs| > 0
    requires Ordered(|outs| - 1, rest) && Complete(outs[1..], rest)
    requires outs[0].Ok? && outs[0].value.Some? ==> keep
    ensures Complete(outs, Reindex(rest, keep))
  {
    var idx := Reindex(rest, keep);
    forall i | 0 <= i < |outs| && outs[i].Ok? && outs[i].value.Some?
      ensures i in idx
    {
      if i == 0 {
        assert idx[0] == 0;
      } else {
        assert outs[1..][i - 1] == outs[i];
      }
    }
  }

  /** Helper: the positions of a list's tail, shifted to positions of the
      whole list, with position 0 in front when `keepHead` holds. */
  function Reindex(rest: seq<nat>, keepHead: bool): (idx: seq<nat>)
    requires forall j, j' :: 0 <= j < j' < |rest| ==> rest[j] < rest[j']
    ensures |idx| == |rest| + (if keepHead then 1 else 0)
    ensures keepHead ==> idx[0] == 0
    ensures var d := if keepHead then 1 else 0;
            forall j :: d <= j < |idx| ==> idx[j] == rest[j - d] + 1
    ensures forall j, j' :: 0 <= j < j' < |idx| ==> idx[j] < idx[j']
    ensures forall i :: i in rest ==> i + 1 in idx
  {
    var shifted := seq(|rest|, j requires 0 <= j < |rest| => rest[j] + 1);
    assert forall i :: i in rest ==> i + 1 in shifted by {
      forall i | i in rest
        ensures i + 1 in shifted
      {
        var j :| 0 <= j < |rest| && rest[j] == i;
        assert shifted[j] == i + 1;
      }
    }
    if keepHead then [0] + shifted else shifted
  }

  /** Helper: one unfolding of `Collect` on a non-empty list. */
  lemma CollectStep(stitch: seq<int>, events: seq<Label>, lagBin: int, halfWindow: int)
    requires |events| > 0
    requires Collect(stitch, events, lagBin, halfWindow).Ok?
    ensures Place(stitch, events[0], lagBin, halfWindow).Ok?
    ensures Collect(stitch, events[1..], lagBin, halfWindow).Ok?
    ensures var p := Place(stitch, events[0], lagBin, halfWindow).value;
            var rest := Collect(stitch, events[1..], lagBin, halfWindow).value;
            Collect(stitch, events, lagBin, halfWindow).value == if p.Some? then [p.value] + rest else rest
  {
  }

  /** Under the segment invariant and a non-negative half window, every stacked
      window is the exact row range `[left, right)` of the signal, of
      `2 * halfWindow` rows, inside `[0, rows)`; on a rectangular signal every
      row of a window has the signal's width, so the stack is a 3-D array. */
  lemma ExtractedWindowsAreExactSlices(signal: SignalMatrix, stitch: seq<int>, events: seq<Label>, lag: int, halfWindow: int)
    requires Covers(stitch, |signal.rows|)
    requires halfWindow >= 0
    requires Extract(signal, stitch, events, lag, halfWindow).Ok?
    ensures var ws := Collect(stitch, events, Bin(lag), halfWindow).value;
            var x := Extract(signal, stitch, events, lag, halfWindow).value.x;
            forall i :: 0 <= i < |ws| ==>
              && 0 <= ws[i].left <= ws[i].right <= |signal.rows|
              && x[i] == signal.rows[ws[i].left..ws[i].right]
              && |x[i]| == 2 * halfWindow
    ensures var x := Extract(signal, stitch, events, lag, halfWindow).value.x;
            signal.Rectangular() ==>
              forall i, t :: 0 <= i < |x| && 0 <= t < |x[i]| ==> |x[i][t]| == signal.width
  {
    var ws := Collect(stitch, events, Bin(lag), halfWindow).value;
    forall i | 0 <= i < |ws|
      ensures 0 <= ws[i].left <= ws[i].right <= |signal.rows|
    {
      WindowInsideSignal(stitch, |signal.rows|, events, Bin(lag), halfWindow, i);
    }
  }

  /** Helper: a kept window lies between the first and the last boundary. */
  lemma WindowInsideSignal(stitch: seq<int>, rows: nat, events: seq<Label>, lagBin: int, halfWindow: int, i: int)
    requires Covers(stitch, rows)
    requires Collect(stitch, events, lagBin, halfWindow).Ok?
    requires 0 <= i < |Collect(stitch, events, lagBin, halfWindow).value|
    ensures var w := Collect(stitch, events, lagBin, halfWindow).value[i];
            0 <= w.left && w.right <= rows
  {
    var idx := CollectIsOrderedSelection(stitch, events, lagBin, halfWindow);
    var outs := Outcomes(stitch, events, lagBin, halfWindow);
    assert outs[idx[i]] == Place(stitch, events[idx[i]], lagBin, halfWindow);
    PlacedWindowInsideSignal(stitch, rows, events[idx[i]], lagBin, halfWindow);
  }

  /** Helper: the window of one kept event lies between the first and the
      last boundary. */
  lemma PlacedWindowInsideSignal(stitch: seq<int>, rows: nat, e: Label, lagBin: int, halfWindow: int)
    requires Covers(stitch, rows)
    requires Place(stitch, e, lagBin, halfWindow).Ok? && Place(stitch, e, lagBin, halfWindow).value.Some?
    ensures var w := Place(stitch, e, lagBin, halfWindow).value.value;
            0 <= w.left && w.right <= rows
  {
    var bin := Bin(e.onset);
    var k :| IsRank(stitch, bin, k) && k + 1 < |stitch| &&
             SegmentOf(stitch, bin).value == Segment(stitch[k], stitch[k + 1]);
    assert stitch[0] <= stitch[k];
    assert stitch[k + 1] <= stitch[|stitch| - 1];
  }

  /** Under the segment invariant and a non-negative half window, all kept
      windows have the same shape, so stacking fails only when no event was
      kept. */
  lemma ExtractFailsOnlyWhenNothingKept(signal: SignalMatrix, stitch: seq<int>, events: seq<Label>, lag: int, halfWindow: int)
    requires Covers(stitch, |signal.rows|)
    requires halfWindow >= 0
    requires Collect(stitch, events, Bin(lag), halfWindow).Ok?
    ensures var ws := Collect(stitch, events, Bin(lag), halfWindow).value;
            && (|ws| == 0 ==> Extract(signal, stitch, events, lag, halfWindow) == Err(NothingToStack))
            && (|ws| > 0 ==> Extract(signal, stitch, events, lag, halfWindow).Ok?)
  {
    var ws := Collect(stitch, events, Bin(lag), halfWindow).value;
    var slices := seq(|ws|, i requires 0 <= i < |ws| => PySlice(signal.rows, ws[i].left, ws[i].right));
    forall i | 0 <= i < |ws|
      ensures |slices[i]| == 2 * halfWindow
    {
      WindowInsideSignal(stitch, |signal.rows|, events, Bin(lag), halfWindow, i);
    }
  }

  // ---------------------------------------------------------------------------
  // Worked examples: 1000 bins, boundaries [0, 500, 1000], halfWindow 16, lag 0
  // ---------------------------------------------------------------------------

  /** An onset of 16000 samples falls in bin 500, which lies on the boundary
      and so belongs to the first segment `[0, 500)`; its window `[484, 516)`
      reaches past 500 and is dropped. */
  lemma BoundaryEventIsDropped(word: string, tags: map<int, string>)
    ensures Place([0, 500, 1000], Label(16000, word, tags), Bin(0), 16) == Ok(None)
  {
    SegmentOfContainingBin([0, 500, 1000], 500, 0);
  }

  /** An onset of 9600 samples falls in bin 300 and keeps the window `[284, 316)`. */
  lemma InteriorEventIsKept(word: string, tags: map<int, string>)
    ensures Place([0, 500, 1000], Label(9600, word, tags), Bin(0), 16) == Ok(Some(Window(284, 316, word)))
  {
    SegmentOfContainingBin([0, 500, 1000], 300, 0);
  }

  // ---------------------------------------------------------------------------
  // The strict comparison of the segment lookup
  // ---------------------------------------------------------------------------

  /** As written: with boundaries `[0, 500, 1000]`, an onset of 16000 samples
      (bin 500, the first bin of the second recording) with a lag of -640
      samples is judged against the first segment `[0, 500)` and keeps the
      window `[464, 496)` of the first recording. */
  lemma BoundaryBinJoinsPrecedingSegment(word: string, tags: map<int, string>)
    ensures Place([0, 500, 1000], Label(16000, word, tags), Bin(-640), 16) == Ok(Some(Window(464, 496, word)))
  {
    SegmentOfContainingBin([0, 500, 1000], 500, 0);
  }

  /** As written: an onset in the first 32 samples falls in bin 0, which has no
      boundary strictly below it, so the lookup fails and aborts the run. */
  lemma FirstBinAborts(onset: int)
    requires 0 <= onset < BinSize
    ensures SegmentOf([0, 500, 1000], Bin(onset)) == Err(NoBoundaryBelow(0))
  {
  }

  /** `k` is the last position whose boundary is at or below `bin`. */
  predicate IsRankAtMost(stitch: seq<int>, bin: int, k: int) {
    && 0 <= k < |stitch|
    && stitch[k] <= bin
    && forall j :: k < j < |stitch| ==> bin < stitch[j]
  }

  /** The last position of `stitch` holding a value at or below `bin`, if any. */
  function LastAtMost(stitch: seq<int>, bin: int): (r: Option<nat>)
    ensures r.Some? ==> IsRankAtMost(stitch, bin, r.value)
    ensures r.None? ==> forall k :: 0 <= k < |stitch| ==> bin < stitch[k]
  {
    if |stitch| == 0 then None
    else if stitch[|stitch| - 1] <= bin then Some(|stitch| - 1)
    else LastAtMost(stitch[..|stitch| - 1], bin)
  }

  /** Corrected lookup: a bin belongs to the segment whose first bin is at or
      below it, so a bin on a boundary starts the next segment. */
  function SegmentOfCorrected(stitch: seq<int>, bin: int): (r: Result<Segment>)
    ensures r.Ok? <==> exists k :: IsRankAtMost(stitch, bin, k) && k + 1 < |stitch|
    ensures r.Ok? ==> exists k :: IsRankAtMost(stitch, bin, k) && k + 1 < |stitch| &&
                                  r.value == Segment(stitch[k], stitch[k + 1])
  {
    match LastAtMost(stitch, bin)
    case None =>
      assert forall k :: !IsRankAtMost(stitch, bin, k);
      Err(NoBoundaryBelow(bin))
    case Some(k) =>
      if k + 1 < |stitch| then
        assert IsRankAtMost(stitch, bin, k);
        Ok(Segment(stitch[k], stitch[k + 1]))
      else
        assert forall k' :: IsRankAtMost(stitch, bin, k') ==> k' == k;
        Err(NoBoundaryAfter(bin))
  }

  /** Under the segment invariant the corrected lookup succeeds exactly for the
      bins `[0, rows)` of the signal, and the segment it finds holds the bin:
      `start <= bin < stop`. */
  lemma CorrectedSegmentHoldsBin(stitch: seq<int>, rows: nat, bin: int)
    requires Covers(stitch, rows)
    ensures SegmentOfCorrected(stitch, bin).Ok? <==> 0 <= bin < rows
    ensures SegmentOfCorrected(stitch, bin).Ok? ==>
              var seg := SegmentOfCorrected(stitch, bin).value;
              seg.start <= bin < seg.stop
  {
    if SegmentOfCorrected(stitch, bin).Ok? {
      var k :| IsRankAtMost(stitch, bin, k) && k + 1 < |stitch| &&
               SegmentOfCorrected(stitch, bin).value == Segment(stitch[k], stitch[k + 1]);
      assert stitch[0] <= stitch[k];
      assert stitch[k + 1] <= stitch[|stitch| - 1];
    }
    if 0 <= bin < rows {
      var k := LastIndexAtMost(stitch, bin);
      assert IsRankAtMost(stitch, bin, k);
    }
  }

  /** Helper: in an increasing sequence starting at or below `bin` and ending
      above it, some consecutive pair brackets `bin` from the left. */
  lemma LastIndexAtMost(stitch: seq<int>, bin: int) returns (k: int)
    requires Increasing(stitch) && |stitch| >= 2
    requires stitch[0] <= bin < stitch[|stitch| - 1]
    ensures 0 <= k && k + 1 < |stitch| && stitch[k] <= bin < stitch[k + 1]
  {
    k := 0;
    while stitch[k + 1] <= bin
      invariant 0 <= k && k + 1 < |stitch|
      invariant stitch[k] <= bin
      decreases |stitch| - k
    {
      k := k + 1;
    }
  }

  /** The corrected lookup places the boundary bin 500 of the worked example
      in the second segment and bin 0 in the first. */
  lemma CorrectedBoundaryBins()
    ensures SegmentOfCorrected([0, 500, 1000], 500) == Ok(Segment(500, 1000))
    ensures SegmentOfCorrected([0, 500, 1000], 0) == Ok(Segment(0, 500))
  {
    assert IsRankAtMost([0, 500, 1000], 500, 1);
    assert IsRankAtMost([0, 500, 1000], 0, 0);
  }
}
