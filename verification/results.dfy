/** Failure-compatible result type standing in for the exceptions the decoding
    pipeline raises. Each error constructor names the Python failure it models. */
module Results {

  datatype Option<+T> = None | Some(value: T)

  /** The fatal conditions of the pipeline. None of them is caught: each aborts the run. */
  datatype Error =
    | EmptyStitchIndex          // IndexError: `bin_stitch_index[-1]` of an empty list
    | IncorrectStitching        // AssertionError: signal rows differ from the last boundary
    | IncorrectElectrodes       // AssertionError: signal columns differ from the electrode count
    | NoBoundaryBelow(bin: int) // IndexError: no boundary lies strictly below the event's bin
    | NoBoundaryAfter(bin: int) // IndexError: the boundary found is the last one
    | NothingToStack            // ValueError: `np.stack` of an empty list of windows
    | ShapeMismatch             // ValueError: `np.stack` of windows of different shapes
    | MissingFoldTag(fold: int) // KeyError: an example has no `fold{i}` entry
    | UnknownWord(word: string) // KeyError: a word absent from the training vocabulary

  datatype Result<+T> = Ok(value: T) | Err(error: Error) {

    predicate IsFailure() {
      Err?
    }

    function PropagateFailure<U>(): Result<U>
      requires Err?
    {
      Err(error)
    }

    function Extract(): T
      requires Ok?
    {
      value
    }
  }
}
