/** Values shared by the three reading loops and the menu. */
module Reading {

  datatype Option<T> = None | Some(value: T)

  /** How a reading loop ends: the `q` command returns a position to bookmark;
      running out of input (Python's `input()` raising EOFError) returns nothing. */
  datatype Exit = Returned(position: nat) | InputExhausted

  /** The pages displayed by a reading loop, one per iteration in order, and how it ended. */
  datatype Trace = Trace(shown: seq<nat>, exit: Exit)

  function Last(s: seq<nat>): nat
    requires |s| > 0
  {
    s[|s| - 1]
  }
}
