/**
 * `Join` and `Split` of src/index.d.ts: a serialiser and a parser for
 * separator-delimited strings. Both are recursive conditional types over
 * literal strings and tuples of literal strings; here they are recursive
 * functions over `string` and `seq<string>`.
 */
module Strings {

  datatype Option<T> = None | Some(value: T)

  /** The two inferred parts of a match of `${infer F}${Sep}${infer R}`. */
  datatype Pieces = Pieces(head: string, tail: string)

  /** The separator `Join` uses when none is given. */
  const JOIN_DEFAULT_SEP: string := ""

  /** The separator `Split` uses when none is given. */
  const SPLIT_DEFAULT_SEP: string := ","

  /** `sep` occurs in `s` starting at index `j`. */
  predicate OccursAt(s: string, sep: string, j: nat) {
    j + |sep| <= |s| && s[j..j + |sep|] == sep
  }

  /** `sep` occurs somewhere in `s`. */
  predicate Contains(s: string, sep: string) {
    exists j :: 0 <= j <= |s| && OccursAt(s, sep, j)
  }

  /** Occurrences in `s[1..]` are the occurrences in `s`, one index to the left. */
  lemma ShiftOccurrences(s: string, sep: string)
    requires s != []
    ensures forall j: nat :: OccursAt(s, sep, j + 1) == OccursAt(s[1..], sep, j)
  {
    forall j: nat
      ensures OccursAt(s, sep, j + 1) == OccursAt(s[1..], sep, j)
    {
      if j + 1 + |sep| <= |s| {
        assert |s[1..]| == |s| - 1;
        var a, b := s[j + 1..j + 1 + |sep|], s[1..][j..j + |sep|];
        assert forall k :: 0 <= k < |a| ==> a[k] == b[k];
        assert a == b;
      }
    }
  }

  /** No occurrence at the front nor in the rest means no occurrence at all. */
  lemma NoOccurrenceCons(s: string, sep: string)
    requires s != [] && !OccursAt(s, sep, 0) && !Contains(s[1..], sep)
    ensures !Contains(s, sep)
  {
    ShiftOccurrences(s, sep);
    forall j: nat | j <= |s| ensures !OccursAt(s, sep, j) {
      if j > 0 {
        assert OccursAt(s, sep, (j - 1) + 1) == OccursAt(s[1..], sep, j - 1);
      }
    }
  }

  /** A leftmost occurrence in the rest, moved one character to the right. */
  lemma LeftmostCons(s: string, sep: string, h: string, t: string)
    requires s != [] && !OccursAt(s, sep, 0)
    requires s[1..] == h + sep + t
    requires forall j: nat :: j < |h| ==> !OccursAt(s[1..], sep, j)
    ensures s == [s[0]] + h + sep + t
    ensures Contains(s, sep)
    ensures forall j: nat :: j < |h| + 1 ==> !OccursAt(s, sep, j)
  {
    ShiftOccurrences(s, sep);
    assert s == [s[0]] + s[1..];
    assert s[1..][|h|..|h| + |sep|] == sep;
    assert OccursAt(s[1..], sep, |h|);
    assert OccursAt(s, sep, |h| + 1);
    forall j: nat | j < |h| + 1 ensures !OccursAt(s, sep, j) {
      if j > 0 {
        assert OccursAt(s, sep, (j - 1) + 1) == OccursAt(s[1..], sep, j - 1);
      }
    }
  }

  /**
   * The template-literal match for a non-empty separator: the head is the
   * shortest prefix of `s` followed by `sep`, i.e. it ends at the leftmost
   * occurrence of `sep`; there is a match exactly when `sep` occurs in `s`.
   */
  function LeftmostMatch(s: string, sep: string): (m: Option<Pieces>)
    requires sep != []
    ensures m.Some? <==> Contains(s, sep)
    ensures m.Some? ==> s == m.value.head + sep + m.value.tail
    ensures m.Some? ==> forall j: nat :: j < |m.value.head| ==> !OccursAt(s, sep, j)
    decreases |s|
  {
    if |sep| <= |s| && s[..|sep|] == sep then
      assert OccursAt(s, sep, 0);
      Some(Pieces([], s[|sep|..]))
    else if s == [] then
      None
    else
      match LeftmostMatch(s[1..], sep)
      case None =>
        NoOccurrenceCons(s, sep);
        None
      case Some(p) =>
        LeftmostCons(s, sep, p.head, p.tail);
        Some(Pieces([s[0]] + p.head, p.tail))
  }

  /**
   * The match of `${infer F}${Sep}${infer R}` against `s` (src/index.d.ts:112).
   * With an empty separator the pattern is `${infer F}${infer R}`, whose first
   * placeholder takes exactly one character, so the empty string does not match.
   */
  function MatchSep(s: string, sep: string): (m: Option<Pieces>)
    ensures m.Some? ==> s == m.value.head + sep + m.value.tail
    ensures m.Some? ==> |m.value.tail| < |s|
    ensures sep == [] ==> (m.Some? <==> s != [])
    ensures sep == [] && m.Some? ==> |m.value.head| == 1
    ensures sep != [] ==> (m.Some? <==> Contains(s, sep))
    ensures sep != [] && m.Some? ==> forall j: nat :: j < |m.value.head| ==> !OccursAt(s, sep, j)
  {
    if sep == [] then
      if s == [] then None else Some(Pieces(s[..1], s[1..]))
    else
      LeftmostMatch(s, sep)
  }

  /**
   * `Split<S, Sep>`: the pieces of `s` between the separators, left to right,
   * the separators themselves left out.
   */
  function Split(s: string, sep: string): (r: seq<string>)
    ensures sep != [] ==> |r| > 0
    ensures sep != [] ==> forall i :: 0 <= i < |r| ==> !Contains(r[i], sep)
    decreases |s|
  {
    if s == [] then
      if sep == [] then [] else [s]
    else
      match MatchSep(s, sep)
      case Some(p) =>
        assert sep != [] ==> !Contains(p.head, sep) by {
          if sep != [] {
            forall j: nat | OccursAt(p.head, sep, j) ensures false {
              assert s[j..j + |sep|] == p.head[j..j + |sep|];
              assert OccursAt(s, sep, j);
            }
          }
        }
        [p.head] + Split(p.tail, sep)
      case None => [s]
  }

  /** `Join<Arr, Sep>`: the elements of `xs` with `sep` between neighbours. */
  function Join(xs: seq<string>, sep: string): string {
    if xs == [] then ""
    else if |xs| == 1 then xs[0]
    else xs[0] + sep + Join(xs[1..], sep)
  }

  /**
   * The number of non-overlapping occurrences of `sep` in `s`, counted by a
   * left-to-right scan that skips over each occurrence it finds.
   */
  function Occurrences(s: string, sep: string): nat
    requires sep != []
    decreases |s|
  {
    if |s| < |sep| then 0
    else if s[..|sep|] == sep then 1 + Occurrences(s[|sep|..], sep)
    else Occurrences(s[1..], sep)
  }

  // ---------------------------------------------------------------------
  // The laws of Join and Split
  // ---------------------------------------------------------------------

  /** Join on the empty tuple, a one-element tuple and a longer one. */
  lemma {:induction false} JoinCases(x: string, rest: seq<string>, sep: string)
    ensures Join([], sep) == ""
    ensures Join([x], sep) == x
    ensures rest != [] ==> Join([x] + rest, sep) == x + sep + Join(rest, sep)
  {
    if rest != [] {
      assert ([x] + rest)[1..] == rest;
    }
  }

  /** Joining the pieces of a split gives back the string, for every separator. */
  lemma {:induction false} JoinSplit(s: string, sep: string)
    ensures Join(Split(s, sep), sep) == s
    decreases |s|
  {
    if s != [] {
      match MatchSep(s, sep)
      case Some(p) =>
        JoinSplit(p.tail, sep);
        var rest := Split(p.tail, sep);
        assert Split(s, sep) == [p.head] + rest;
        if rest == [] {
          assert p.tail == Join(rest, sep) == "";
          assert sep == [];
        } else {
          assert ([p.head] + rest)[1..] == rest;
        }
      case None =>
    }
  }

  /** With a non-empty separator the empty string splits into one empty piece. */
  lemma SplitEmpty(sep: string)
    requires sep != []
    ensures Split("", sep) == [""]
  {
  }

  /** With an empty separator the empty string splits into no pieces. */
  lemma SplitEmptyBoth()
    ensures Split("", "") == []
  {
  }

  /** With an empty separator every character becomes a piece of its own. */
  lemma {:induction false} SplitChars(s: string)
    ensures |Split(s, "")| == |s|
    ensures forall i :: 0 <= i < |s| ==> Split(s, "")[i] == [s[i]]
    decreases |s|
  {
    if s != [] {
      var rest := Split(s[1..], "");
      SplitChars(s[1..]);
      assert Split(s, "") == [s[..1]] + rest;
      assert s[..1] == [s[0]];
      forall i | 1 <= i < |s| ensures Split(s, "")[i] == [s[i]] {
        assert Split(s, "")[i] == rest[i - 1] == [s[1..][i - 1]];
      }
    }
  }

  /** No occurrence before index `i` leaves the count unchanged when `s[..i]` is dropped. */
  lemma {:induction false} OccurrencesSkip(s: string, sep: string, i: nat)
    requires sep != [] && i <= |s|
    requires forall j: nat :: j < i ==> !OccursAt(s, sep, j)
    ensures Occurrences(s, sep) == Occurrences(s[i..], sep)
    decreases i
  {
    if i > 0 {
      assert !OccursAt(s, sep, 0);
      if |s| >= |sep| {
        ShiftOccurrences(s, sep);
        forall j: nat | j < i - 1 ensures !OccursAt(s[1..], sep, j) {
          assert OccursAt(s, sep, j + 1) == OccursAt(s[1..], sep, j);
        }
        OccurrencesSkip(s[1..], sep, i - 1);
        assert s[1..][i - 1..] == s[i..];
      } else {
        assert |s[i..]| < |sep|;
      }
    }
  }

  /**
   * With a non-empty separator the number of pieces is one more than the
   * number of non-overlapping occurrences of the separator.
   */
  lemma {:induction false} SplitCount(s: string, sep: string)
    requires sep != []
    ensures |Split(s, sep)| == Occurrences(s, sep) + 1
    decreases |s|
  {
    if s != [] {
      match MatchSep(s, sep)
      case Some(p) =>
        SplitCount(p.tail, sep);
        var h := |p.head|;
        OccurrencesSkip(s, sep, h);
        assert s[h..][..|sep|] == sep;
        assert s[h..][|sep|..] == p.tail;
      case None =>
        forall j: nat | j < |s| ensures !OccursAt(s, sep, j) {
        }
        OccurrencesSkip(s, sep, |s|);
        assert s[|s|..] == [];
    }
  }

  /**
   * `x` followed by the separator has its leftmost occurrence of the
   * separator where the separator was put: no occurrence of `sep` lies in
   * `x` or straddles the end of `x`.
   */
  predicate Separable(x: string, sep: string)
    requires sep != []
  {
    !Contains(x + sep[..|sep| - 1], sep)
  }

  /** A match is determined by where its head ends. */
  lemma MatchAt(s: string, sep: string, h: string, t: string)
    requires sep != [] && s == h + sep + t
    requires forall j: nat :: j < |h| ==> !OccursAt(s, sep, j)
    ensures MatchSep(s, sep) == Some(Pieces(h, t))
  {
    assert s[|h|..|h| + |sep|] == sep;
    assert OccursAt(s, sep, |h|);
    var m := MatchSep(s, sep);
    var p := m.value;
    assert s[|p.head|..|p.head| + |sep|] == sep;
    assert OccursAt(s, sep, |p.head|);
    assert |p.head| == |h|;
    assert p.head == s[..|h|] == h;
    assert p.tail == s[|h| + |sep|..] == t;
  }

  /**
   * The tuples that a split gives back after a join: non-empty, no element
   * but the last lets an occurrence of the separator start before the
   * separator that follows it, and the last does not contain the separator.
   */
  predicate Joinable(xs: seq<string>, sep: string)
    requires sep != []
  {
    && xs != []
    && (forall i :: 0 <= i < |xs| - 1 ==> Separable(xs[i], sep))
    && !Contains(xs[|xs| - 1], sep)
  }

  /** The elements after the first of a joinable tuple are joinable. */
  lemma JoinableTail(xs: seq<string>, sep: string)
    requires sep != [] && |xs| > 1
    ensures Joinable(xs, sep) <==> Separable(xs[0], sep) && Joinable(xs[1..], sep)
  {
    if Separable(xs[0], sep) && Joinable(xs[1..], sep) {
      forall i | 1 <= i < |xs| - 1 ensures Separable(xs[i], sep) {
        assert xs[i] == xs[1..][i - 1];
      }
    }
  }

  /** The join of a separable element, the separator and a rest matches at the separator put there. */
  lemma MatchJoin(x: string, sep: string, t: string)
    requires sep != [] && Separable(x, sep)
    ensures MatchSep(x + sep + t, sep) == Some(Pieces(x, t))
  {
    var s := x + sep + t;
    forall j: nat | j < |x| ensures !OccursAt(s, sep, j) {
      if OccursAt(s, sep, j) {
        var y := x + sep[..|sep| - 1];
        assert y == s[..|x| + |sep| - 1];
        assert y[j..j + |sep|] == s[j..j + |sep|];
        assert OccursAt(y, sep, j);
      }
    }
    MatchAt(s, sep, x, t);
  }

  /** Splitting a join gives back a joinable tuple. */
  lemma {:induction false} SplitJoin(xs: seq<string>, sep: string)
    requires sep != [] && Joinable(xs, sep)
    ensures Split(Join(xs, sep), sep) == xs
    decreases |xs|
  {
    var x := xs[0];
    if |xs| == 1 {
      if x != [] {
        assert MatchSep(x, sep) == None;
      }
    } else {
      JoinableTail(xs, sep);
      var t := Join(xs[1..], sep);
      MatchJoin(x, sep, t);
      SplitJoin(xs[1..], sep);
      assert Split(x + sep + t, sep) == [x] + xs[1..];
    }
  }

  /** A string that splits into itself alone does not contain the separator. */
  lemma SplitSingle(x: string, sep: string)
    requires sep != [] && Split(x, sep) == [x]
    ensures !Contains(x, sep)
  {
  }

  /** An element whose split comes back first after a join is separable. */
  lemma SplitHeadSeparable(x: string, sep: string, t: string)
    requires sep != []
    requires MatchSep(x + sep + t, sep).Some? && MatchSep(x + sep + t, sep).value.head == x
    ensures Separable(x, sep)
  {
    var s := x + sep + t;
    var y := x + sep[..|sep| - 1];
    forall j: nat | OccursAt(y, sep, j) ensures false {
      assert y == s[..|x| + |sep| - 1];
      assert y[j..j + |sep|] == s[j..j + |sep|];
      assert OccursAt(s, sep, j) && j < |x|;
    }
  }

  /** Only a joinable tuple comes back from splitting its join. */
  lemma {:induction false} SplitJoinNecessary(xs: seq<string>, sep: string)
    requires sep != [] && Split(Join(xs, sep), sep) == xs
    ensures Joinable(xs, sep)
    decreases |xs|
  {
    if |xs| == 1 {
      SplitSingle(xs[0], sep);
    } else if |xs| > 1 {
      var x, t := xs[0], Join(xs[1..], sep);
      var s := x + sep + t;
      assert s[|x|..|x| + |sep|] == sep && OccursAt(s, sep, |x|);
      var p := MatchSep(s, sep).value;
      assert Split(s, sep) == [p.head] + Split(p.tail, sep);
      assert p.head == x;
      assert p.tail == t by {
        assert s[|x| + |sep|..] == t;
        assert s == p.head + sep + p.tail;
        assert s[|x| + |sep|..] == p.tail;
      }
      SplitHeadSeparable(x, sep, t);
      assert Split(t, sep) == xs[1..];
      SplitJoinNecessary(xs[1..], sep);
      JoinableTail(xs, sep);
    }
  }

  /**
   * With a non-empty separator, `Split` undoes `Join` on exactly the
   * joinable tuples.
   */
  lemma SplitJoinExactly(xs: seq<string>, sep: string)
    requires sep != []
    ensures Split(Join(xs, sep), sep) == xs <==> Joinable(xs, sep)
  {
    if Joinable(xs, sep) {
      SplitJoin(xs, sep);
    }
    if Split(Join(xs, sep), sep) == xs {
      SplitJoinNecessary(xs, sep);
    }
  }

  /** For a one-character separator it is enough that no element contains it. */
  lemma SeparableSingle(x: string, sep: string)
    requires |sep| == 1
    ensures Separable(x, sep) <==> !Contains(x, sep)
  {
    assert x + sep[..|sep| - 1] == x;
  }

  /**
   * "No element contains the separator" is not enough for `SplitJoin`: the
   * separator "aa" does not occur in "a" or "", yet the join "aaa" splits
   * into "" and "a".
   */
  lemma SplitJoinOverlap()
    ensures Join(["a", ""], "aa") == "aaa"
    ensures !Contains("a", "aa") && !Contains("", "aa")
    ensures Split(Join(["a", ""], "aa"), "aa") == ["", "a"]
  {
    assert Join(["a", ""], "aa") == "a" + "aa" + "";
    MatchAt("aaa", "aa", "", "a");
    assert MatchSep("a", "aa") == None;
  }

  /** `Split<"1,2,3">` (default separator) is ["1", "2", "3"]. */
  lemma ExampleSplitCommas()
    ensures Split("1,2,3", SPLIT_DEFAULT_SEP) == ["1", "2", "3"]
  {
    assert Join(["1", "2", "3"], ",") == "1,2,3";
    SeparableSingle("3", ",");
    SplitJoin(["1", "2", "3"], ",");
  }

  /** `Split<",,,">` is four empty pieces. */
  lemma ExampleSplitEmptyPieces()
    ensures Split(",,,", SPLIT_DEFAULT_SEP) == ["", "", "", ""]
  {
    assert Join(["", "", "", ""], ",") == ",,,";
    SeparableSingle("", ",");
    SplitJoin(["", "", "", ""], ",");
  }

  /** `Split<"123", "">` is ["1", "2", "3"]. */
  lemma ExampleSplitChars()
    ensures Split("123", "") == ["1", "2", "3"]
  {
    SplitChars("123");
    var r := Split("123", "");
    assert r[0] == ['1'] && r[1] == ['2'] && r[2] == ['3'];
  }

  /** `Join<[1, 2, 3]>` is "123" and `Join<[1, 2, 3], ",">` is "1,2,3". */
  lemma ExampleJoin()
    ensures Join(["1", "2", "3"], JOIN_DEFAULT_SEP) == "123"
    ensures Join(["1", "2", "3"], ",") == "1,2,3"
  {
    JoinCases("1", ["2", "3"], JOIN_DEFAULT_SEP);
    JoinCases("2", ["3"], JOIN_DEFAULT_SEP);
    JoinCases("1", ["2", "3"], ",");
    JoinCases("2", ["3"], ",");
  }
}
