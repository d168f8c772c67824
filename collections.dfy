/**
 * Unions and tuples of src/index.d.ts as values: a finite union of literal
 * types is a `set<T>`, a fixed-length tuple a `seq<T>`. `T2U` forgets the
 * order of a tuple; `U2T` picks one duplicate-free order for a union.
 */
module Collections {

  /** No element occurs twice in `xs`. */
  predicate NoDup<T(==)>(xs: seq<T>) {
    forall i, j :: 0 <= i < j < |xs| ==> xs[i] != xs[j]
  }

  /** `T2U<T>` (`T[number]`): the union of the tuple's elements. */
  function T2U<T(==)>(xs: seq<T>): (u: set<T>)
    ensures forall i :: 0 <= i < |xs| ==> xs[i] in u
    ensures forall x <- u :: x in xs
  {
    set i | 0 <= i < |xs| :: xs[i]
  }

  /** Only the empty tuple has the empty union. */
  lemma T2UEmpty<T>(xs: seq<T>)
    ensures T2U(xs) == {} <==> xs == []
  {
    if xs != [] {
      assert xs[0] in T2U(xs);
    }
  }

  /** A one-element tuple has a one-member union. */
  lemma T2USingle<T>(x: T)
    ensures T2U([x]) == {x}
  {
    assert [x][0] == x;
  }

  /** The union of a concatenation is the union of the unions. */
  lemma T2UConcat<T>(xs: seq<T>, ys: seq<T>)
    ensures T2U(xs + ys) == T2U(xs) + T2U(ys)
  {
    var zs := xs + ys;
    forall z | z in T2U(zs) ensures z in T2U(xs) + T2U(ys) {
      var i :| 0 <= i < |zs| && zs[i] == z;
      if i < |xs| { assert xs[i] == z; } else { assert ys[i - |xs|] == z; }
    }
    forall z | z in T2U(xs) + T2U(ys) ensures z in T2U(zs) {
      if z in T2U(xs) {
        var i :| 0 <= i < |xs| && xs[i] == z;
        assert zs[i] == z;
      } else {
        var i :| 0 <= i < |ys| && ys[i] == z;
        assert zs[i + |xs|] == z;
      }
    }
  }

  /**
   * A tuple has at least as many positions as its union has members, and
   * exactly as many precisely when it has no duplicates.
   */
  lemma {:induction false} T2USize<T>(xs: seq<T>)
    ensures |T2U(xs)| <= |xs|
    ensures |T2U(xs)| == |xs| <==> NoDup(xs)
    decreases |xs|
  {
    if xs != [] {
      var init, last := xs[..|xs| - 1], xs[|xs| - 1];
      assert xs == init + [last];
      T2USize(init);
      T2UConcat(init, [last]);
      T2USingle(last);
      if last in init {
        assert T2U(xs) == T2U(init);
        var k :| 0 <= k < |init| && init[k] == last;
        assert xs[k] == xs[|xs| - 1];
      } else {
        assert |T2U(xs)| == |T2U(init)| + 1;
        if NoDup(xs) {
          assert NoDup(init) by {
            forall i, j | 0 <= i < j < |init| ensures init[i] != init[j] {
              assert init[i] == xs[i] && init[j] == xs[j];
            }
          }
        } else {
          var i, j :| 0 <= i < j < |xs| && xs[i] == xs[j];
          assert j < |xs| - 1;
          assert init[i] == init[j];
        }
      }
    }
  }

  /**
   * `U2T<U>`: some duplicate-free tuple of the union's members. As in
   * `_U2T`, one member is chosen and placed last after the tuple of the
   * others; which member is chosen is left unspecified.
   */
  ghost function U2T<T>(u: set<T>): (xs: seq<T>)
    ensures NoDup(xs) && T2U(xs) == u
    decreases |u|
  {
    if u == {} then []
    else
      var l :| l in u;
      var rest := U2T(u - {l});
      T2UConcat(rest, [l]);
      T2USingle(l);
      rest + [l]
  }

  /** `U2T` is a right inverse of `T2U`, and the tuple has one position per member. */
  lemma U2TInverse<T>(u: set<T>)
    ensures T2U(U2T(u)) == u
    ensures |U2T(u)| == |u|
  {
    T2USize(U2T(u));
  }
}
