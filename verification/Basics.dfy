/** Small shared types. */
module Basics {

  datatype Option<+T> = None | Some(value: T)

  function Max(a: int, b: int): (m: int)
    ensures m >= a && m >= b && (m == a || m == b)
  {
    if a < b then b else a
  }

  /** `s` lists no value twice. */
  ghost predicate NoDuplicates<T>(s: seq<T>) {
    forall i, j :: 0 <= i < j < |s| ==> s[i] != s[j]
  }

  lemma NonEmptyHasMember<T>(s: seq<T>)
    ensures s == [] || exists x :: x in s
  {
    if s != [] { assert s[0] in s; }
  }

  /** The times of `xs` start no earlier than `from` and never run backwards. */
  ghost predicate ClockRuns<T>(xs: seq<T>, time: T -> int, from: int)
    decreases |xs|
  {
    xs != [] ==> from <= time(xs[0]) && ClockRuns(xs[1..], time, time(xs[0]))
  }
}
