/** Optional values and failures shared by every parser module. */
module Options {

  /** A value that may be absent: the JavaScript `null` of a report field. */
  datatype Option<+T> = None | Some(value: T)

  /** The outcome of a computation that may throw a JavaScript exception. */
  datatype Result<+T> = Ok(value: T) | Thrown(message: string)

  /** The first index at or after `i` holding a value, or `|xs|`: a loop that stops at
      the first element it accepts. */
  function FirstSome<T>(xs: seq<Option<T>>, i: nat): (r: nat)
    requires i <= |xs|
    ensures i <= r <= |xs|
    ensures forall j :: i <= j < r ==> xs[j].None?
    ensures r < |xs| ==> xs[r].Some?
    decreases |xs| - i
  {
    if i == |xs| || xs[i].Some? then i else FirstSome(xs, i + 1)
  }

  /** The value of the last element of `xs[i..j]` holding one, else `d`. */
  function LastSome<T>(xs: seq<Option<T>>, i: nat, j: nat, d: T): (r: T)
    requires i <= j <= |xs|
    ensures (forall k :: i <= k < j ==> xs[k].None?) ==> r == d
    ensures i < j && xs[j - 1].Some? ==> r == xs[j - 1].value
    decreases j
  {
    if j == i then d
    else if xs[j - 1].Some? then xs[j - 1].value
    else LastSome(xs, i, j - 1, d)
  }

  /** Reading the first element into the default does not change the last value. */
  lemma {:induction false} LastSomeShift<T>(xs: seq<Option<T>>, i: nat, j: nat, d: T)
    requires i < j <= |xs|
    ensures LastSome(xs, i, j, d) == LastSome(xs, i + 1, j, if xs[i].Some? then xs[i].value else d)
    decreases j
  {
    if j > i + 1 && xs[j - 1].None? {
      LastSomeShift(xs, i, j - 1, d);
    }
  }

  /** The last value is that of the element after which no element holds one. */
  lemma {:induction false} LastSomeIs<T>(xs: seq<Option<T>>, i: nat, j: nat, d: T, k: nat)
    requires i <= k < j <= |xs| && xs[k].Some?
    requires forall m :: k < m < j ==> xs[m].None?
    ensures LastSome(xs, i, j, d) == xs[k].value
    decreases j
  {
    if j - 1 > k {
      LastSomeIs(xs, i, j - 1, d, k);
    }
  }
}
