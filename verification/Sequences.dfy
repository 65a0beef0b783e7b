/** Values that may be missing. */
module Wrappers {
  datatype Option<+T> = None | Some(value: T)
}

/** Algebraic laws under a name: stated with At as their trigger, they are only ever used at instances named by it. */
module Laws {
  ghost predicate At<T>(a: T, b: T, c: T) { true }
}

/** Sequences: repetition, distinctness and counting. */
module Sequences {

  function Repeat<T>(x: T, n: nat): (s: seq<T>)
    ensures |s| == n
  {
    seq(n, i => x)
  }

  ghost predicate Distinct<T>(s: seq<T>) {
    forall i, j :: 0 <= i < j < |s| ==> s[i] != s[j]
  }

  /** Number of positions of `s` that hold `x`. */
  function Count<T(==)>(s: seq<T>, x: T): (n: nat)
    ensures n <= |s|
  {
    if s == [] then 0
    else Count(s[..|s| - 1], x) + if s[|s| - 1] == x then 1 else 0
  }

  lemma {:induction false} CountPush<T>(s: seq<T>, i: nat, x: T)
    requires i < |s|
    ensures Count(s[..i + 1], x) == Count(s[..i], x) + if s[i] == x then 1 else 0
  {
    assert s[..i + 1][..i] == s[..i];
  }

  /** A value occurs exactly when its count is positive. */
  lemma {:induction false} CountPositive<T>(s: seq<T>, x: T)
    ensures Count(s, x) > 0 <==> x in s
    decreases |s|
  {
    if s != [] {
      CountPositive(s[..|s| - 1], x);
      assert s == s[..|s| - 1] + [s[|s| - 1]];
    }
  }

  lemma {:induction false} CountAll<T>(s: seq<T>, x: T)
    ensures Count(s, x) == |s| <==> forall i :: 0 <= i < |s| ==> s[i] == x
    decreases |s|
  {
    if s != [] {
      CountAll(s[..|s| - 1], x);
    }
  }

  /** Two different values share the positions between them. */
  lemma {:induction false} CountDisjoint<T>(s: seq<T>, x: T, y: T)
    requires x != y
    ensures Count(s, x) + Count(s, y) <= |s|
    decreases |s|
  {
    if s != [] {
      CountDisjoint(s[..|s| - 1], x, y);
    }
  }

  /** Two values that are all there is share the positions out between them. */
  lemma {:induction false} OneOrTheOther<T>(s: seq<T>, x: T, y: T)
    requires x != y && forall i :: 0 <= i < |s| ==> s[i] == x || s[i] == y
    ensures Count(s, x) + Count(s, y) == |s|
    decreases |s|
  {
    if s != [] { OneOrTheOther(s[..|s| - 1], x, y); }
  }

  lemma {:induction false} DistinctCount<T>(s: seq<T>, x: T)
    requires Distinct(s)
    ensures Count(s, x) <= 1
    decreases |s|
  {
    if s != [] {
      var k := |s| - 1;
      DistinctCount(s[..k], x);
      CountPositive(s[..k], x);
      if x in s[..k] { var i :| 0 <= i < k && s[..k][i] == x; assert s[i] != s[k]; }
    }
  }

  /** If every position holding `x` in `s` holds `y` in `t`, then `y` is at least as frequent in `t`;
      equal counts mean that the positions are the same ones. */
  lemma {:induction false} CountMono<S, T>(s: seq<S>, x: S, t: seq<T>, y: T)
    requires |s| == |t|
    requires forall i :: 0 <= i < |s| && s[i] == x ==> t[i] == y
    ensures Count(s, x) <= Count(t, y)
    ensures Count(s, x) == Count(t, y) ==> forall i :: 0 <= i < |s| && t[i] == y ==> s[i] == x
    decreases |s|
  {
    if s != [] {
      CountMono(s[..|s| - 1], x, t[..|s| - 1], y);
    }
  }

  /** Replacing an occurrence of `x` by something else lowers the count of `x` by one. */
  lemma {:induction false} CountUpdate<T>(s: seq<T>, d: nat, x: T, y: T)
    requires d < |s| && s[d] == x && y != x
    ensures Count(s[d := y], x) == Count(s, x) - 1
    decreases |s|
  {
    var k := |s| - 1;
    if d < k {
      CountUpdate(s[..k], d, x, y);
      assert s[d := y][..k] == s[..k][d := y];
    } else {
      assert s[d := y][..k] == s[..k];
    }
  }
}
