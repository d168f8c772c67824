/**
 * `Tuple`, `_Tuple` and `Length` of src/index.d.ts: a tuple of a given
 * length filled with one item, and the length of a tuple.
 */
module Tuples {

  /**
   * `_Tuple<L, T, Tup>`: append `t` to the accumulator until it has length
   * `n`. The source recurses without bound when the accumulator starts out
   * longer than `n`; its only caller starts from the empty tuple.
   */
  function TupleAcc<T>(n: nat, t: T, acc: seq<T>): (r: seq<T>)
    requires |acc| <= n
    ensures |r| == n
    ensures r[..|acc|] == acc
    ensures forall i :: |acc| <= i < n ==> r[i] == t
    decreases n - |acc|
  {
    if n == |acc| then acc else TupleAcc(n, t, acc + [t])
  }

  /** `Tuple<L, T>` for a literal length: `n` copies of `t`. */
  function Tuple<T>(n: nat, t: T): (r: seq<T>)
    ensures |r| == n
    ensures forall i :: 0 <= i < n ==> r[i] == t
  {
    TupleAcc(n, t, [])
  }

  /** `Length<T>` (`T["length"]`). */
  function Length<T>(xs: seq<T>): nat {
    |xs|
  }

  /** `Length` undoes `Tuple`. */
  lemma LengthOfTuple<T>(n: nat, t: T)
    ensures Length(Tuple(n, t)) == n
  {
  }

  /** `Tuple` undoes `Length` on a tuple filled with one item. */
  lemma TupleOfLength<T>(xs: seq<T>, t: T)
    requires forall i :: 0 <= i < |xs| ==> xs[i] == t
    ensures Tuple(Length(xs), t) == xs
  {
  }
}
