/**
 * `U2P` and `_U2P` of src/index.d.ts: the union of all orderings of a union,
 * here the set of all duplicate-free sequences of a finite set's elements.
 */
module Permutations {
  import opened Collections

  function Factorial(n: nat): nat {
    if n == 0 then 1 else n * Factorial(n - 1)
  }

  /** `p` lists every member of `u` exactly once. */
  predicate IsOrdering<T(==)>(p: seq<T>, u: set<T>) {
    NoDup(p) && T2U(p) == u
  }

  /** `U2P<U>` (`_U2P<U, U>`). */
  function U2P<T(==)>(u: set<T>): set<seq<T>>
    decreases |u|, 1
  {
    U2PFrom(u, u)
  }

  /**
   * `_U2P<U, R>`: for every member `x` of `us`, `x` followed by an ordering
   * of the rest of `r`; the empty union gives the one empty tuple.
   */
  function U2PFrom<T(==)>(us: set<T>, r: set<T>): set<seq<T>>
    requires us <= r
    decreases |r|, 0
  {
    if us == {} then {[]}
    else set x, p | x in us && p in U2P(r - {x}) :: [x] + p
  }

  /** The orderings of `u` that start with `x`. */
  function Prefixed<T(==)>(x: T, ps: set<seq<T>>): set<seq<T>> {
    set p | p in ps :: [x] + p
  }

  /** `x` followed by `q` orders `u` exactly when `q` orders the rest of `u`. */
  lemma PrependOrdering<T>(x: T, q: seq<T>, u: set<T>)
    requires x in u
    ensures IsOrdering([x] + q, u) <==> IsOrdering(q, u - {x})
  {
    var p := [x] + q;
    T2UConcat([x], q);
    T2USingle(x);
    assert T2U(p) == {x} + T2U(q);
    if IsOrdering(q, u - {x}) {
      forall i, j | 0 <= i < j < |p| ensures p[i] != p[j] {
        assert p[j] == q[j - 1] && q[j - 1] in T2U(q);
        if i > 0 { assert p[i] == q[i - 1]; }
      }
    }
    if IsOrdering(p, u) {
      assert x !in T2U(q) by {
        forall k | 0 <= k < |q| ensures q[k] != x {
          assert p[k + 1] == q[k] && p[0] == x;
        }
      }
      forall i, j | 0 <= i < j < |q| ensures q[i] != q[j] {
        assert q[i] == p[i + 1] && q[j] == p[j + 1];
      }
    }
  }

  /** Every member of `U2P(u)` is an ordering of `u`. */
  lemma {:induction false} U2PSound<T>(u: set<T>, p: seq<T>)
    requires p in U2P(u)
    ensures IsOrdering(p, u)
    decreases |u|
  {
    if u != {} {
      assert p in U2PFrom(u, u);
      var x, q :| x in u && q in U2P(u - {x}) && p == [x] + q;
      U2PSound(u - {x}, q);
      PrependOrdering(x, q, u);
    }
  }

  /** Every ordering of `u` is a member of `U2P(u)`. */
  lemma {:induction false} U2PComplete<T>(u: set<T>, p: seq<T>)
    requires IsOrdering(p, u)
    ensures p in U2P(u)
    decreases |u|
  {
    if u == {} {
      T2UEmpty(p);
      assert U2P<T>({}) == {[]};
    } else {
      assert p != [] by {
        var y :| y in u;
        assert y in T2U(p);
      }
      var x, q := p[0], p[1..];
      assert p == [x] + q;
      assert x in T2U(p);
      PrependOrdering(x, q, u);
      U2PComplete(u - {x}, q);
      assert p in U2PFrom(u, u);
    }
  }

  /**
   * The members of `U2P(u)` are exactly the orderings of `u`; each has one
   * position per member of `u`.
   */
  lemma U2POrderings<T>(u: set<T>, p: seq<T>)
    ensures p in U2P(u) <==> IsOrdering(p, u)
    ensures p in U2P(u) ==> |p| == |u|
  {
    if p in U2P(u) {
      U2PSound(u, p);
      T2USize(p);
    }
    if IsOrdering(p, u) {
      U2PComplete(u, p);
    }
  }

  /** The empty union has one ordering, the empty tuple. */
  lemma U2PEmpty<T>()
    ensures U2P<T>({}) == {[]}
  {
  }

  /** Prefixing one element is injective, so it keeps the number of orderings. */
  lemma {:induction false} PrefixedSize<T>(x: T, ps: set<seq<T>>)
    ensures |Prefixed(x, ps)| == |ps|
    decreases |ps|
  {
    if ps != {} {
      var q :| q in ps;
      PrefixedSize(x, ps - {q});
      assert Prefixed(x, ps) == Prefixed(x, ps - {q}) + {[x] + q};
      forall q' | q' in ps - {q} ensures [x] + q' != [x] + q {
        assert ([x] + q')[1..] == q' && ([x] + q)[1..] == q;
      }
    }
  }

  /** Splitting off the orderings that begin with `y`. */
  lemma U2PFromSplit<T>(us: set<T>, r: set<T>, y: T)
    requires us <= r && y in us && us != {y}
    ensures U2PFrom(us, r) == U2PFrom(us - {y}, r) + Prefixed(y, U2P(r - {y}))
    ensures U2PFrom(us - {y}, r) !! Prefixed(y, U2P(r - {y}))
  {
    assert us - {y} != {};
    var lhs, rest, ys := U2PFrom(us, r), U2PFrom(us - {y}, r), Prefixed(y, U2P(r - {y}));
    forall p | p in lhs ensures p in rest + ys {
      var x, q :| x in us && q in U2P(r - {x}) && p == [x] + q;
      if x == y { assert p in ys; } else { assert p in rest; }
    }
    forall p | p in rest ensures p !in ys && p in lhs {
      var x, q :| x in us - {y} && q in U2P(r - {x}) && p == [x] + q;
      assert p[0] == x != y;
    }
  }

  /** With one member to start with, `_U2P` is that member before each ordering of the rest. */
  lemma U2PFromSingle<T>(y: T, r: set<T>)
    requires y in r
    ensures U2PFrom({y}, r) == Prefixed(y, U2P(r - {y}))
  {
    forall p | p in U2PFrom({y}, r) ensures p in Prefixed(y, U2P(r - {y})) {
      var x, q :| x in {y} && q in U2P(r - {x}) && p == [x] + q;
    }
  }

  /** `_U2P<U, R>` has one-per-member groups of (|R| - 1)! orderings each. */
  lemma {:induction false} U2PFromSize<T>(us: set<T>, r: set<T>)
    requires us <= r && us != {}
    ensures |U2PFrom(us, r)| == |us| * Factorial(|r| - 1)
    decreases |r|, |us|
  {
    var n := Factorial(|r| - 1);
    var y :| y in us;
    assert |Prefixed(y, U2P(r - {y}))| == n by {
      PrefixedSize(y, U2P(r - {y}));
      U2PSize(r - {y});
    }
    if us == {y} {
      U2PFromSingle(y, r);
    } else {
      U2PFromSize(us - {y}, r);
      assert |U2PFrom(us, r)| == |us - {y}| * n + n by {
        U2PFromSplit(us, r, y);
        DisjointUnionSize(U2PFrom(us - {y}, r), Prefixed(y, U2P(r - {y})));
      }
      MulSucc(|us - {y}|, n);
    }
  }

  lemma MulSucc(a: nat, n: nat)
    ensures (a + 1) * n == a * n + n
  {
  }

  lemma DisjointUnionSize<T>(a: set<T>, b: set<T>)
    requires a !! b
    ensures |a + b| == |a| + |b|
  {
    assert a * b == {};
  }

  /** A union of `n` members has `n!` orderings. */
  lemma {:induction false} U2PSize<T>(u: set<T>)
    ensures |U2P(u)| == Factorial(|u|)
    decreases |u|, |u| + 1
  {
    if u != {} {
      U2PFromSize(u, u);
    }
  }

  /** A two-member union has its two orderings: `U2P<"a" | "b">` is `["a", "b"] | ["b", "a"]`. */
  lemma U2PPair<T>(x: T, y: T)
    requires x != y
    ensures U2P({x, y}) == {[x, y], [y, x]}
  {
    var u := {x, y};
    var ps := U2P(u);
    forall p | p in ps ensures p == [x, y] || p == [y, x] {
      U2POrderings(u, p);
      assert p[0] in T2U(p) && p[1] in T2U(p);
    }
    assert [x, y] in ps by {
      var p := [x, y];
      assert T2U(p) == u by { assert p[0] == x && p[1] == y; }
      U2POrderings(u, p);
    }
    assert [y, x] in ps by {
      var p := [y, x];
      assert T2U(p) == u by { assert p[0] == y && p[1] == x; }
      U2POrderings(u, p);
    }
  }
}
