/** Failure-compatible result type shared by every stage of the translator.
    The Python source raises LexerError, ParseError or EvalError; here each
    stage returns `Err` with a value describing the failure instead. */
module Outcomes {

  datatype Option<+T> = None | Some(value: T)

  datatype Result<+T, +E> = Ok(value: T) | Err(error: E) {
    predicate IsFailure() {
      Err?
    }

    function PropagateFailure<U>(): Result<U, E>
      requires Err?
    {
      Err(error)
    }

    function Extract(): T
      requires Ok?
    {
      value
    }
  }
}

/** Small facts about sequences that the proofs of several stages use. */
module SeqFacts {

  /** Moving the head of `todo` to the end of `done` keeps their concatenation. */
  lemma ShiftHead<T>(done: seq<T>, todo: seq<T>)
    requires todo != []
    ensures (done + [todo[0]]) + todo[1..] == done + todo
    ensures [todo[0]] + todo[1..] == todo
  {
    assert todo == [todo[0]] + todo[1..];
  }
}
