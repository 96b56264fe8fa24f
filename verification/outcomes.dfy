/** Failure-compatible wrappers shared by every module of the model.

    The engine has two kinds of "no value": an absent optional value (`Option`)
    and an abort of the whole call (`Outcome.Panic`), which stands for a Rust
    `panic!`, a failed `unwrap`, an arithmetic underflow or an out-of-range
    index or slice.
 */
module Outcomes {

  datatype Option<+T> = None | Some(value: T) {

    /** Returns the value in Some, or the default when None (Rust's `unwrap_or`). */
    function GetOr(default: T): T {
      match this
      case Some(v) => v
      case None => default
    }
  }

  /** Why a call aborted. Each cause names one abort site of the engine. */
  datatype PanicCause =
    | CutoffIsOne           // the explicit `panic!` on a cutoff of exactly one
    | LengthUnderflow       // `check_word_length - 2` on an empty query
    | BucketOutOfRange      // `word_dic[check_word_length - 2]` past the last bucket
    | SliceStartAfterEnd    // `word_dic[check_word_length - 1..upper]` with upper too small
    | MissingKeyboardEntry  // `close_keyboard_placement.get(&c).unwrap()` on an unlisted letter
    | MissingSortKey        // `typo_type_order.get(..).unwrap()` on a kind absent from the order

  /** Either the value a call returns, or the panic that aborted it. */
  datatype Outcome<+T> = Value(value: T) | Panic(cause: PanicCause) {

    predicate IsFailure() {
      Panic?
    }

    function PropagateFailure<U>(): Outcome<U>
      requires Panic?
    {
      Panic(cause)
    }

    function Extract(): T
      requires Value?
    {
      value
    }
  }
}
