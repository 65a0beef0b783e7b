/** PrefetchOracle: guesses the next block numbers from the distances between the last ones. */
module Prefetch {
  import opened Sequences

  datatype PredictionType = COMPLETE | CONTINUE

  // ----- the history

  /** The history, newest first, after one more number. */
  function Added(s: seq<int>, x: int, capacity: nat): seq<int> {
    if x in s then s else if |s| + 1 > capacity then ([x] + s)[..capacity] else [x] + s
  }

  function AddedAll(s: seq<int>, xs: seq<int>, capacity: nat): seq<int> {
    if xs == [] then s else Added(AddedAll(s, xs[..|xs| - 1], capacity), xs[|xs| - 1], capacity)
  }

  /** k numbers from `first` on, each `d` more than the one before. */
  function Progression(first: int, d: int, k: nat): seq<int> {
    if k == 0 then [] else Progression(first, d, k - 1) + [Term(first, d, k - 1)]
  }

  function Term(first: int, d: int, k: nat): int {
    if k == 0 then first else Term(first, d, k - 1) + d
  }

  lemma {:induction false} TermMoves(first: int, d: int, j: nat, k: nat)
    requires d != 0 && j < k
    ensures Term(first, d, k) != Term(first, d, j) && (d > 0 <==> Term(first, d, k) > Term(first, d, j))
    decreases k
  {
    if j < k - 1 { TermMoves(first, d, j, k - 1); }
  }

  lemma {:induction false} TermAdds(first: int, d: int, j: nat, k: nat)
    ensures Term(first, d, j + k) == Term(Term(first, d, j), d, k)
    decreases k
  {
    if k > 0 { TermAdds(first, d, j, k - 1); }
  }

  lemma {:induction false} TermIs(first: int, d: int, k: nat)
    ensures Term(first, d, k) == first + k * d
    decreases k
  {
    if k > 0 {
      TermIs(first, d, k - 1);
      assert (k - 1) * d + d == k * d;
    }
  }

  /** A newest-first history that is a progression: n numbers up to `last`. */
  ghost predicate Follows(s: seq<int>, last: int, d: int) {
    d != 0 && forall i: nat :: i < |s| ==> s[i] == Term(last, -d, i)
  }

  // ----- distances

  /** The numbers noted under distance d by the first k positions, in the order they are noted. */
  function Noted(s: seq<int>, d: int, k: nat): seq<int>
    requires k <= |s|
  {
    if k == 0 then []
    else Noted(s, d, k - 1) + NotedAt(s, d, k - 1)
  }

  function NotedAt(s: seq<int>, d: int, i: nat): seq<int>
    requires i < |s|
  {
    NotedUnder(s, d, i, 1) + NotedUnder(s, d, i, 2)
  }

  function Entry(distances: map<int, seq<int>>, d: int): seq<int> {
    if d in distances then distances[d] else []
  }

  function Pushed(distances: map<int, seq<int>>, d: int, x: int): map<int, seq<int>> {
    distances[d := Entry(distances, d) + [x]]
  }

  lemma {:induction false} PushedAt(distances: map<int, seq<int>>, d: int, x: int, e: int)
    ensures Entry(Pushed(distances, d, x), e) == Entry(distances, e) + if e == d then [x] else []
    ensures e in Pushed(distances, d, x) <==> e in distances || e == d
  {
  }

  /** The distance table after k positions. */
  ghost predicate Table(distances: map<int, seq<int>>, s: seq<int>, k: nat)
    requires k <= |s|
  {
    forall d :: Entry(distances, d) == Noted(s, d, k) && (d in distances ==> Noted(s, d, k) != [])
  }

  /** One position of the loop that fills the table. */
  function Entered(distances: map<int, seq<int>>, s: seq<int>, i: nat): map<int, seq<int>>
    requires i < |s|
  {
    EnteredUnder(EnteredUnder(distances, s, i, 1), s, i, 2)
  }

  /** Number i noted under its distance to the number `step` positions further on, if there is one. */
  function EnteredUnder(distances: map<int, seq<int>>, s: seq<int>, i: nat, step: nat): map<int, seq<int>>
    requires i < |s|
  {
    if i + step < |s| then Pushed(distances, s[i] - s[i + step], s[i]) else distances
  }

  function NotedUnder(s: seq<int>, d: int, i: nat, step: nat): seq<int>
    requires i < |s|
  {
    if i + step < |s| && s[i] - s[i + step] == d then [s[i]] else []
  }

  lemma {:induction false} EnteredUnderAt(distances: map<int, seq<int>>, s: seq<int>, i: nat, step: nat, d: int)
    requires i < |s|
    ensures Entry(EnteredUnder(distances, s, i, step), d) == Entry(distances, d) + NotedUnder(s, d, i, step)
    ensures d in EnteredUnder(distances, s, i, step) <==> d in distances || NotedUnder(s, d, i, step) != []
  {
    if i + step < |s| { PushedAt(distances, s[i] - s[i + step], s[i], d); }
  }

  lemma {:induction false} EnteredAt(distances: map<int, seq<int>>, s: seq<int>, i: nat, d: int)
    requires i < |s|
    ensures Entry(Entered(distances, s, i), d) == Entry(distances, d) + NotedAt(s, d, i)
    ensures d in Entered(distances, s, i) ==> d in distances || NotedAt(s, d, i) != []
  {
    EnteredUnderAt(distances, s, i, 1, d);
    EnteredUnderAt(EnteredUnder(distances, s, i, 1), s, i, 2, d);
    Reassociate(Entry(distances, d), NotedUnder(s, d, i, 1), NotedUnder(s, d, i, 2));
  }

  lemma {:induction false} Reassociate(a: seq<int>, b: seq<int>, c: seq<int>)
    ensures (a + b) + c == a + (b + c)
  {
  }

  lemma {:induction false} TableGrows(distances: map<int, seq<int>>, s: seq<int>, i: nat)
    requires i < |s| && Table(distances, s, i)
    ensures Table(Entered(distances, s, i), s, i + 1)
  {
    var two := Entered(distances, s, i);
    forall d ensures Entry(two, d) == Noted(s, d, i + 1) && (d in two ==> Noted(s, d, i + 1) != []) {
      EnteredAt(distances, s, i, d);
      assert Entry(distances, d) == Noted(s, d, i);
    }
  }

  lemma TableStarts(s: seq<int>)
    ensures Table(map[], s, 0)
  {
  }

  lemma {:induction false} KeysExist(distances: map<int, seq<int>>, s: seq<int>)
    requires |s| >= 3 && Table(distances, s, |s|)
    ensures distances.Items != {}
  {
    FirstIsNoted(s);
    var d := s[0] - s[1];
    assert Entry(distances, d) == Noted(s, d, |s|);
    assert (d, distances[d]) in distances.Items;
  }

  ghost predicate MostFrequent(s: seq<int>, d: int) {
    Noted(s, d, |s|) != [] && forall e :: |Noted(s, e, |s|)| <= |Noted(s, d, |s|)|
  }

  /** No distance between different numbers is zero. */
  lemma {:induction false} NothingAtZero(s: seq<int>, k: nat)
    requires Distinct(s) && k <= |s|
    ensures Noted(s, 0, k) == []
    decreases k
  {
    if k > 0 { NothingAtZero(s, k - 1); }
  }

  lemma {:induction false} FirstIsNoted(s: seq<int>)
    requires |s| >= 3
    ensures Noted(s, s[0] - s[1], |s|) != []
  {
    var d := s[0] - s[1];
    NotedGrows(s, d, 1, |s|);
    assert NotedAt(s, d, 0)[0] == s[0];
    assert Noted(s, d, 1) == Noted(s, d, 0) + NotedAt(s, d, 0);
  }

  lemma {:induction false} NotedGrows(s: seq<int>, d: int, j: nat, k: nat)
    requires j <= k <= |s|
    ensures |Noted(s, d, j)| <= |Noted(s, d, k)| && Noted(s, d, j) == Noted(s, d, k)[..|Noted(s, d, j)|]
    decreases k
  {
    if j < k { NotedGrows(s, d, j, k - 1); }
  }

  /** How many numbers of a progression are noted under distance e. */
  ghost function Reach(s: seq<int>, d: int, e: int): int {
    if e == d then |s| - 1 else if e == 2 * d then |s| - 2 else 0
  }

  /** In a progression every number but the oldest is noted under its distance, every number but the two oldest under
      twice the distance, and nothing else is noted. */
  lemma {:induction false} ProgressionNotes(s: seq<int>, last: int, d: int, k: nat, e: int)
    requires Follows(s, last, d) && k <= |s|
    ensures Noted(s, e, k) == s[..Least(k, Reach(s, d, e))]
    decreases k
  {
    if k > 0 {
      ProgressionNotes(s, last, d, k - 1, e);
      ProgressionNotesMore(s, last, d, k - 1, e);
    }
  }

  lemma {:induction false} ProgressionNotesMore(s: seq<int>, last: int, d: int, k: nat, e: int)
    requires Follows(s, last, d) && k < |s| && Noted(s, e, k) == s[..Least(k, Reach(s, d, e))]
    ensures Noted(s, e, k + 1) == s[..Least(k + 1, Reach(s, d, e))]
  {
    ProgressionNotesAt(s, last, d, k, e);
    FrontGrows(s, k, Reach(s, d, e));
  }

  function Next(s: seq<int>, i: nat, n: int): seq<int>
    requires i < |s|
  {
    if i < n then [s[i]] else []
  }

  lemma {:induction false} FrontGrows(s: seq<int>, k: nat, n: int)
    requires k < |s| && n <= |s|
    ensures s[..Least(k, n)] + Next(s, k, n) == s[..Least(k + 1, n)]
  {
  }

  lemma {:induction false} ProgressionNotesAt(s: seq<int>, last: int, d: int, i: nat, e: int)
    requires Follows(s, last, d) && i < |s|
    ensures Noted(s, e, i + 1) == Noted(s, e, i) + Next(s, i, Reach(s, d, e))
  {
    assert s[i] == Term(last, -d, i);
    if i + 1 < |s| { assert s[i + 1] == Term(last, -d, i + 1) == s[i] - d; }
    if i + 2 < |s| { assert s[i + 2] == Term(last, -d, i + 2) == s[i + 1] - d; }
    assert NotedAt(s, e, i) == Next(s, i, Reach(s, d, e));
  }

  function Least(a: int, b: int): nat {
    if a < 0 || b < 0 then 0 else if a < b then a else b
  }

  lemma {:induction false} ProgressionDistance(s: seq<int>, last: int, d: int, e: int)
    requires Follows(s, last, d) && |s| >= 3 && MostFrequent(s, e)
    ensures e == d && Noted(s, d, |s|) == s[..|s| - 1]
  {
    ProgressionNotes(s, last, d, |s|, e);
    ProgressionNotes(s, last, d, |s|, d);
  }

  // ----- predictions

  /** The positive ones among the next k terms, no more than `length`. */
  function Continuation(first: int, d: int, k: nat, length: nat): seq<int> {
    if k == 0 then []
    else
      var p := Continuation(first, d, k - 1, length);
      if Term(first, d, k) > 0 && |p| < length then p + [Term(first, d, k)] else p
  }

  ghost predicate IsNext(x: int, first: int, d: int, k: nat) {
    exists i: nat :: 1 <= i <= k && x == Term(first, d, i)
  }

  lemma {:induction false} ContinuationIs(first: int, d: int, k: nat, length: nat)
    requires d != 0
    ensures var p := Continuation(first, d, k, length);
      && |p| <= length && Distinct(p) && (forall x :: x in p ==> x > 0)
      && (forall x :: x in p ==> IsNext(x, first, d, k))
      && (|p| < length ==> forall i: nat :: 1 <= i <= k && Term(first, d, i) > 0 ==> Term(first, d, i) in p)
    decreases k
  {
    if k > 0 {
      ContinuationIs(first, d, k - 1, length);
      var p := Continuation(first, d, k - 1, length);
      assert IsNext(Term(first, d, k), first, d, k);
      forall i: nat | 1 <= i <= k - 1 ensures Term(first, d, i) != Term(first, d, k) { TermMoves(first, d, i, k); }
      assert Term(first, d, k) !in p;
    }
  }

  function Unseen(s: seq<int>, past: seq<int>): (r: seq<int>)
    ensures forall x :: x in r <==> x in s && x !in past
    ensures |r| <= |s|
  {
    if s == [] then []
    else
      var r := Unseen(s[..|s| - 1], past);
      assert s == s[..|s| - 1] + [s[|s| - 1]];
      if s[|s| - 1] in past then r else r + [s[|s| - 1]]
  }

  lemma {:induction false} UnseenIsDistinct(s: seq<int>, past: seq<int>)
    requires Distinct(s)
    ensures Distinct(Unseen(s, past))
    decreases |s|
  {
    if s != [] {
      UnseenIsDistinct(s[..|s| - 1], past);
      assert s[|s| - 1] !in s[..|s| - 1];
    }
  }

  function Reversed(s: seq<int>): (r: seq<int>)
    ensures |r| == |s| && forall x :: x in r <==> x in s
  {
    if s == [] then []
    else
      assert s == s[..|s| - 1] + [s[|s| - 1]];
      [s[|s| - 1]] + Reversed(s[..|s| - 1])
  }

  /** The outcome, given the distance that was picked. */
  function Predicted(s: seq<int>, d: int, length: nat, kind: PredictionType, past: seq<int>): seq<int> {
    var noted := Noted(s, d, |s|);
    if |s| < 3 || noted == [] || |noted| < 3 * |s| / 4 then []
    else
      var p := Continuation(noted[0], d, |noted|, length);
      if kind == CONTINUE then Unseen(p, past) else p
  }

  /** Every outcome has distinct positive terms, at most `length` of them, and none of the past when continuing. */
  lemma {:induction false} PredictedIs(s: seq<int>, d: int, length: nat, kind: PredictionType, past: seq<int>)
    requires Distinct(s)
    ensures var p := Predicted(s, d, length, kind, past);
      && Distinct(p) && |p| <= length && (forall x :: x in p ==> x > 0)
      && (kind == CONTINUE ==> forall x :: x in p ==> x !in past)
  {
    NothingAtZero(s, |s|);
    var noted := Noted(s, d, |s|);
    if noted != [] {
      ContinuationIs(noted[0], d, |noted|, length);
      UnseenIsDistinct(Continuation(noted[0], d, |noted|, length), past);
    }
  }

  /** There is a prediction exactly if the distance was noted for three quarters of the history, rounded down, and leads
      to a positive number. */
  lemma {:induction false} ConfidentExactly(s: seq<int>, d: int, length: nat, past: seq<int>)
    requires Distinct(s) && |s| >= 3 && length > 0 && MostFrequent(s, d)
    ensures var noted := Noted(s, d, |s|);
      Predicted(s, d, length, COMPLETE, past) != [] <==>
        4 * |noted| + 4 > 3 * |s| && exists i: nat :: 1 <= i <= |noted| && Term(noted[0], d, i) > 0
  {
    NothingAtZero(s, |s|);
    var noted := Noted(s, d, |s|);
    ContinuationIs(noted[0], d, |noted|, length);
    var p := Continuation(noted[0], d, |noted|, length);
    if p != [] {
      assert p[0] in p && IsNext(p[0], noted[0], d, |noted|);
      var i: nat :| 1 <= i <= |noted| && p[0] == Term(noted[0], d, i);
      assert Term(noted[0], d, i) > 0;
    }
  }

  /** The past predictions, newest first, after one more list. */
  function Remembered(prediction: seq<int>, past: seq<int>, capacity: nat): (r: seq<int>)
    requires |prediction| <= capacity && |past| <= capacity
    ensures |r| <= capacity
    ensures forall x :: x in prediction ==> x in r
    ensures forall x :: x in r ==> x in prediction || x in past
  {
    var r := Reversed(prediction) + past;
    if |r| > capacity then
      assert forall x :: x in prediction ==> x in r[..capacity] by {
        assert r[..capacity] == Reversed(prediction) + past[..capacity - |prediction|];
      }
      r[..capacity]
    else r
  }

  /** For a progression of at least three numbers the outcome is the positive ones among the next n - 1 terms. */
  lemma {:induction false} ProgressionIsContinued(s: seq<int>, last: int, d: int, length: nat, past: seq<int>, e: int)
    requires Follows(s, last, d) && |s| >= 3 && MostFrequent(s, e)
    ensures Predicted(s, e, length, COMPLETE, past) == Continuation(last, d, |s| - 1, length)
    ensures Predicted(s, e, length, CONTINUE, past) == Unseen(Continuation(last, d, |s| - 1, length), past)
  {
    ProgressionDistance(s, last, d, e);
    assert s[0] == Term(last, -d, 0);
  }

  /** Numbers that arrive in a progression are remembered as one, newest first, as far as the capacity goes. */
  lemma {:induction false} ProgressionIsRemembered(first: int, d: int, n: nat, capacity: nat)
    requires d != 0 && n > 0
    ensures var s := AddedAll([], Progression(first, d, n), capacity);
      |s| == Least(n, capacity) && Follows(s, Term(first, d, n - 1), d)
    decreases n
  {
    var xs := Progression(first, d, n);
    ProgressionAt(first, d, n, n - 1);
    assert xs[..n - 1] == Progression(first, d, n - 1);
    var s := AddedAll([], xs[..n - 1], capacity);
    var x := Term(first, d, n - 1);
    if n > 1 {
      ProgressionIsRemembered(first, d, n - 1, capacity);
      forall i: nat | i < |s| ensures s[i] != x && s[i] == Term(x, -d, i + 1) {
        FollowsBack(first, d, n - 2, i);
        TermMoves(first, d, n - 2 - i, n - 1);
        TermAdds(x, -d, 1, i);
      }
    }
    AddedFollows(s, x, d, capacity);
  }

  lemma {:induction false} AddedFollows(s: seq<int>, x: int, d: int, capacity: nat)
    requires d != 0 && |s| <= capacity && forall i: nat :: i < |s| ==> s[i] != x && s[i] == Term(x, -d, i + 1)
    ensures |Added(s, x, capacity)| == Least(|s| + 1, capacity) && Follows(Added(s, x, capacity), x, d)
  {
    var t := Added(s, x, capacity);
    forall i: nat | i < |t| ensures t[i] == Term(x, -d, i) {
      if i > 0 { assert t[i] == s[i - 1]; }
    }
  }

  lemma {:induction false} ProgressionAt(first: int, d: int, n: nat, k: nat)
    requires k < n
    ensures |Progression(first, d, n)| == n && Progression(first, d, n)[k] == Term(first, d, k)
    ensures k == n - 1 ==> Progression(first, d, n)[..k] == Progression(first, d, k)
    decreases n
  {
    if n > 1 { ProgressionAt(first, d, n - 1, if k < n - 1 then k else 0); }
  }

  lemma {:induction false} FollowsBack(first: int, d: int, n: nat, i: nat)
    requires i <= n
    ensures Term(Term(first, d, n), -d, i) == Term(first, d, n - i)
    decreases i
  {
    if i > 0 { FollowsBack(first, d, n, i - 1); }
  }

  class PrefetchOracle {
    const maxPrediction: nat
    const capacity: nat
    var sequence: seq<int>
    var past: seq<int>

    ghost predicate Valid()
      reads this
    {
      && Distinct(sequence) && |sequence| <= capacity && |past| <= capacity
      && capacity == if maxPrediction > 8 then maxPrediction + 2 else 10
    }

    constructor (max: nat)
      ensures Valid() && maxPrediction == max && sequence == [] && past == []
    {
      maxPrediction := max;
      capacity := if max > 8 then max + 2 else 10;
      sequence, past := [], [];
    }

    /** add. */
    method Add(number: int)
      requires Valid()
      modifies this
      ensures Valid() && sequence == Added(old(sequence), number, capacity) && past == old(past)
    {
      if number !in sequence {
        sequence := [number] + sequence;
        if |sequence| > capacity {
          sequence := sequence[..capacity];
        }
      }
    }

    /** The distance table: for every distance seen, the numbers noted under it. */
    static method Distances(s: seq<int>) returns (distances: map<int, seq<int>>)
      requires |s| >= 3
      ensures distances.Items != {} && Table(distances, s, |s|)
    {
      TableStarts(s);
      distances := map[];
      for i := 0 to |s|
        invariant Table(distances, s, i)
      {
        TableGrows(distances, s, i);
        distances := Enter(distances, s, i);
      }
      KeysExist(distances, s);
    }

    /** The body of that loop. */
    static method Enter(distances: map<int, seq<int>>, s: seq<int>, i: nat) returns (r: map<int, seq<int>>)
      requires i < |s|
      ensures r == Entered(distances, s, i)
    {
      r := distances;
      if i + 1 < |s| {
        r := Pushed(r, s[i] - s[i + 1], s[i]);
        if i + 2 < |s| {
          r := Pushed(r, s[i] - s[i + 2], s[i]);
        }
      }
    }

    /** The most frequent distance; the table is visited in an arbitrary order, so any of several may come out. */
    method PickDistance(distances: map<int, seq<int>>) returns (best: int)
      requires distances.Items != {}
      ensures best in distances && forall d :: d in distances ==> |distances[d]| <= |distances[best]|
    {
      var todo := distances.Items;
      var pick :| pick in todo;
      while todo != {}
        invariant todo <= distances.Items && pick in distances.Items
        invariant forall it :: it in distances.Items && it !in todo ==> |it.1| <= |pick.1|
        decreases todo
      {
        var it :| it in todo;
        if |it.1| > |pick.1| {
          pick := it;
        }
        todo := todo - {it};
      }
      best := pick.0;
      forall d | d in distances ensures |distances[d]| <= |distances[best]| {
        assert (d, distances[d]) in distances.Items;
      }
    }

    /** The loop that builds the list. */
    method Build(first: int, d: int, count: nat, length: nat) returns (prediction: seq<int>)
      ensures prediction == Continuation(first, d, count, length)
    {
      prediction := [];
      var i := 1;
      while i < count + 1
        invariant 1 <= i <= count + 1 && prediction == Continuation(first, d, i - 1, length)
      {
        TermIs(first, d, i);
        var p := first + i * d;
        if p > 0 && |prediction| < length {
          prediction := prediction + [p];
        }
        i := i + 1;
      }
    }

    /** Everything predict does with the distance it picked. */
    method Guess(d: int, noted: seq<int>, length: nat, kind: PredictionType) returns (prediction: seq<int>)
      requires |sequence| >= 3 && noted == Noted(sequence, d, |sequence|) && noted != []
      ensures prediction == Predicted(sequence, d, length, kind, past)
    {
      prediction := [];
      if |noted| < 3 * |sequence| / 4 { return; }
      prediction := Build(noted[0], d, |noted|, length);
      if kind == CONTINUE {
        prediction := Unseen(prediction, past);
      }
    }

    /** predict: the continuation along a most frequent distance. Predictions are distinct and positive and are
        remembered; when continuing, none of them is a remembered one. */
    method Predict(length: nat, kind: PredictionType) returns (prediction: seq<int>)
      requires Valid()
      modifies this`past
      ensures Valid() && Distinct(prediction) && |prediction| <= Least(length, maxPrediction)
      ensures forall p :: p in prediction ==> p > 0 && p in past
      ensures kind == CONTINUE ==> forall p :: p in prediction ==> p !in old(past)
      ensures |past| <= capacity && forall p :: p in past ==> p in prediction || p in old(past)
      ensures |sequence| < 3 ==> prediction == []
      ensures |sequence| >= 3 ==>
        exists d ::
          && MostFrequent(sequence, d)
          && prediction == Predicted(sequence, d, Least(length, maxPrediction), kind, old(past))
    {
      prediction := [];
      if |sequence| < 3 { return; }
      var cut := Least(length, maxPrediction);
      var distances := Distances(sequence);
      var d := PickDistance(distances);
      assert MostFrequent(sequence, d) by {
        forall e ensures |Noted(sequence, e, |sequence|)| <= |Noted(sequence, d, |sequence|)| {
          assert Entry(distances, e) == Noted(sequence, e, |sequence|);
        }
        assert Entry(distances, d) == Noted(sequence, d, |sequence|);
      }
      prediction := Guess(d, distances[d], cut, kind);
      PredictedIs(sequence, d, cut, kind, past);
      past := Remembered(prediction, past, capacity);
    }

    /** Reading n blocks at a constant distance. */
    method AddProgression(first: int, d: int, n: nat)
      requires Valid() && sequence == [] && d != 0 && n > 0
      modifies this
      ensures Valid() && |sequence| == Least(n, capacity) && Follows(sequence, Term(first, d, n - 1), d)
    {
      var i, x := 0, first;
      while i < n
        invariant i <= n && Valid() && x == Term(first, d, i)
        invariant sequence == AddedAll([], Progression(first, d, i), capacity)
      {
        ProgressionAt(first, d, i + 1, i);
        Add(x);
        i, x := i + 1, x + d;
      }
      ProgressionIsRemembered(first, d, n, capacity);
    }

    /** A client that reads n blocks at a constant distance and then asks is told how the progression goes on. */
    method PredictProgression(first: int, d: int, n: nat, length: nat) returns (prediction: seq<int>)
      requires Valid() && sequence == [] && d != 0 && 3 <= n <= capacity
      modifies this
      ensures prediction == Continuation(Term(first, d, n - 1), d, n - 1, Least(length, maxPrediction))
    {
      AddProgression(first, d, n);
      ghost var was := past;
      prediction := Predict(length, COMPLETE);
      WhicheverIsPicked(sequence, Term(first, d, n - 1), d, Least(length, maxPrediction), was, prediction);
    }

    lemma {:induction false} WhicheverIsPicked(
        s: seq<int>, last: int, d: int, length: nat, past: seq<int>, prediction: seq<int>)
      requires |s| >= 3 && Follows(s, last, d)
      requires exists e :: MostFrequent(s, e) && prediction == Predicted(s, e, length, COMPLETE, past)
      ensures prediction == Continuation(last, d, |s| - 1, length)
    {
      var e :| MostFrequent(s, e) && prediction == Predicted(s, e, length, COMPLETE, past);
      ProgressionIsContinued(s, last, d, length, past, e);
    }
  }
}
