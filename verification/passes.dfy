/**
 A left-to-right pass over the lines of a report that carries a cursor from line to
 line and, whenever a step closes something, hands it to a consumer.
 */
module Passes {
  import opened Options

  /** What one step gives: the next cursor and what the step closed, if anything. */
  datatype Move<C, O> = Move(cursor: C, closed: Option<O>)

  function AsSeq<O>(o: Option<O>): seq<O> {
    match o
    case None => []
    case Some(x) => [x]
  }

  /** The pass from position `i` to `n`: `step` moves the cursor, `close` takes in what
      each step closed. */
  function Pass<C, O, R>(n: nat, i: nat, r: R, c: C, step: (nat, C) -> Move<C, O>,
                         close: (R, Option<O>) -> R): R
    requires i <= n
    decreases n - i
  {
    if i == n then r
    else
      var mv := step(i, c);
      Pass(n, i + 1, close(r, mv.closed), mv.cursor, step, close)
  }

  /** What the pass from `i` closes, in order, after `acc`. */
  function Closes<C, O>(n: nat, i: nat, c: C, acc: seq<O>, step: (nat, C) -> Move<C, O>): seq<O>
    requires i <= n
    decreases n - i
  {
    if i == n then acc
    else
      var mv := step(i, c);
      Closes(n, i + 1, mv.cursor, acc + AsSeq(mv.closed), step)
  }

  /** A pass whose consumer takes each closed item as one more element of a fold is
      that fold over everything the pass closes. */
  lemma {:induction false} PassFolds<C, O, R>(n: nat, i: nat, c: C, acc: seq<O>,
                                              step: (nat, C) -> Move<C, O>,
                                              close: (R, Option<O>) -> R, fold: seq<O> -> R)
    requires i <= n
    requires forall s: seq<O>, o: Option<O> :: close(fold(s), o) == fold(s + AsSeq(o))
    ensures Pass(n, i, fold(acc), c, step, close) == fold(Closes(n, i, c, acc, step))
    decreases n - i
  {
    if i < n {
      var mv := step(i, c);
      PassFolds(n, i + 1, mv.cursor, acc + AsSeq(mv.closed), step, close, fold);
    }
  }
}
