/** Listing the keys of a cluster page by page: every drive returns a prefix of its keys in the range, the prefixes
are merged and cut, and the next page starts right behind the last key. */
module Paging {
  import opened Wrappers
  import opened Redundancy

  // ----- keys

  type Key = string

  /** Lexicographic order by character code. */
  predicate Less(a: Key, b: Key) {
    b != [] && (a == [] || a[0] < b[0] || (a[0] == b[0] && Less(a[1..], b[1..])))
  }

  predicate AtMost(a: Key, b: Key) { a == b || Less(a, b) }

  lemma {:induction false} Irreflexive(a: Key)
    ensures !Less(a, a)
    decreases |a|
  {
    if a != [] { Irreflexive(a[1..]); }
  }

  lemma {:induction false} Transitive(a: Key, b: Key, c: Key)
    requires Less(a, b) && Less(b, c)
    ensures Less(a, c)
    decreases |a|
  {
    if a != [] && a[0] == b[0] == c[0] { Transitive(a[1..], b[1..], c[1..]); }
  }

  lemma {:induction false} Total(a: Key, b: Key)
    ensures Less(a, b) || Less(b, a) || a == b
    decreases |a|
  {
    if a != [] && b != [] && a[0] == b[0] {
      Total(a[1..], b[1..]);
      if a[1..] == b[1..] { assert a == [a[0]] + a[1..] && b == [b[0]] + b[1..]; }
    }
  }

  function Successor(a: Key): Key { a + ['\0'] }

  /** Appending NUL gives the next key: nothing fits in between. */
  lemma {:induction false} SuccessorIsNext(a: Key, k: Key)
    ensures Less(a, k) <==> AtMost(Successor(a), k)
    decreases |a|
  {
    if a == [] {
      assert Successor(a) == ['\0'];
      if k != [] {
        assert ['\0'][1..] == [] && k == [k[0]] + k[1..];
        assert k[0] as int >= 0;
        assert k[0] == '\0' || '\0' < k[0];
        assert Less(['\0'], k) == ('\0' < k[0] || (k[0] == '\0' && Less([], k[1..])));
        assert k == ['\0'] <==> k[0] == '\0' && k[1..] == [];
      }
    } else if k != [] {
      SuccessorIsNext(a[1..], k[1..]);
      assert Successor(a)[1..] == Successor(a[1..]) && Successor(a)[0] == a[0];
      assert k == [k[0]] + k[1..] && Successor(a) == [a[0]] + Successor(a[1..]);
    }
  }

  lemma {:induction false} AtMostLess(a: Key, b: Key, c: Key)
    ensures AtMost(a, b) && Less(b, c) ==> Less(a, c)
    ensures Less(a, b) && AtMost(b, c) ==> Less(a, c)
    ensures AtMost(a, b) && AtMost(b, c) ==> AtMost(a, c)
  {
    if Less(a, b) && Less(b, c) { Transitive(a, b, c); }
  }

  lemma {:induction false} NotBoth(a: Key, b: Key)
    requires Less(a, b)
    ensures !AtMost(b, a)
  {
    Irreflexive(a);
    if Less(b, a) { Transitive(a, b, a); }
  }

  ghost predicate Sorted(keys: seq<Key>) {
    forall i, j :: 0 <= i < j < |keys| ==> Less(keys[i], keys[j])
  }

  ghost predicate AllBelow(keys: seq<Key>, k: Key) {
    forall i :: 0 <= i < |keys| ==> Less(keys[i], k)
  }

  predicate Between(start: Key, k: Key, end: Key) { AtMost(start, k) && AtMost(k, end) }

  /** `part` is the ascending start of the set `all`, at most `max` keys long: what is missing comes later. */
  ghost predicate IsFirst(part: seq<Key>, all: set<Key>, max: nat) {
    && Sorted(part) && |part| <= max
    && (forall k :: k in part ==> k in all)
    && (forall k :: k in all ==> k in part || (|part| == max && AllBelow(part, k)))
  }

  // ----- one drive

  ghost function InRange(drive: seq<Key>, start: Key, end: Key): set<Key> {
    set k | k in drive && Between(start, k, end)
  }

  /** The keys of a drive between two bounds, both included. */
  function Filtered(drive: seq<Key>, low: Key, high: Key): seq<Key> {
    if drive == [] then []
    else
      var k := drive[|drive| - 1];
      Filtered(drive[..|drive| - 1], low, high) + if Between(low, k, high) then [k] else []
  }

  lemma {:induction false} FilteredIs(drive: seq<Key>, low: Key, high: Key)
    requires Sorted(drive)
    ensures Sorted(Filtered(drive, low, high))
    ensures forall k :: k in Filtered(drive, low, high) <==> k in drive && Between(low, k, high)
    decreases |drive|
  {
    if drive != [] {
      var n := |drive| - 1;
      FilteredIs(drive[..n], low, high);
      assert drive == drive[..n] + [drive[n]];
      var f := Filtered(drive[..n], low, high);
      forall i | 0 <= i < |f| ensures Less(f[i], drive[n]) {
        assert f[i] in drive[..n];
      }
    }
  }

  function Front(s: seq<Key>, max: nat): seq<Key> { if |s| <= max then s else s[..max] }

  function Back(s: seq<Key>, max: nat): seq<Key> { if |s| <= max then s else s[|s| - max..] }

  /** What one drive returns: the first keys of the range or, if it is given backwards, the last ones. */
  function DriveKeys(drive: seq<Key>, start: Key, end: Key, max: nat): seq<Key> {
    if Less(end, start) then Back(Filtered(drive, end, start), max) else Front(Filtered(drive, start, end), max)
  }

  lemma {:induction false} FrontIsFirst(s: seq<Key>, max: nat)
    requires Sorted(s)
    ensures IsFirst(Front(s, max), Elements(s), max)
  {
    var part := Front(s, max);
    forall k | k in s ensures k in part || (|part| == max && AllBelow(part, k)) {
      var j :| 0 <= j < |s| && s[j] == k;
      if j < |part| { assert part[j] == k; }
    }
  }

  /** GetKeyRange on one drive, in the direction the bounds ask for. */
  method DriveRange(drive: seq<Key>, start: Key, end: Key, max: nat) returns (keys: seq<Key>)
    ensures keys == DriveKeys(drive, start, end, max)
  {
    var reverse := Less(end, start);
    var low, high := if reverse then end else start, if reverse then start else end;
    keys := [];
    for i := 0 to |drive|
      invariant keys == Filtered(drive[..i], low, high)
    {
      assert drive[..i + 1][..i] == drive[..i];
      if Between(low, drive[i], high) {
        keys := keys + [drive[i]];
      }
    }
    assert drive[..|drive|] == drive;
    keys := if reverse then Back(keys, max) else Front(keys, max);
  }

  // ----- merging

  /** Insertion into a std::set, kept as a sorted sequence. */
  function Insert(keys: seq<Key>, k: Key): (r: seq<Key>)
    requires Sorted(keys)
    ensures Sorted(r) && forall x :: x in r <==> x in keys || x == k
    decreases |keys|
  {
    if keys == [] then [k]
    else if keys[0] == k then keys
    else if Less(k, keys[0]) then
      FrontIsLeast(keys, k);
      [k] + keys
    else
      Total(k, keys[0]);
      var rest := Insert(keys[1..], k);
      assert forall x :: x in rest ==> Less(keys[0], x);
      [keys[0]] + rest
  }

  lemma {:induction false} FrontIsLeast(keys: seq<Key>, k: Key)
    requires Sorted(keys) && keys != [] && Less(k, keys[0])
    ensures forall i :: 0 <= i < |keys| ==> Less(k, keys[i])
  {
    forall i | 0 < i < |keys| ensures Less(k, keys[i]) { Transitive(k, keys[0], keys[i]); }
  }

  ghost function Elements(keys: seq<Key>): set<Key> {
    set k | k in keys
  }

  ghost function Union(results: seq<seq<Key>>): set<Key> {
    if results == [] then {} else Union(results[..|results| - 1]) + Elements(results[|results| - 1])
  }

  lemma {:induction false} InUnion(results: seq<seq<Key>>, k: Key)
    ensures k in Union(results) <==> exists i :: 0 <= i < |results| && k in results[i]
    decreases |results|
  {
    if results != [] { InUnion(results[..|results| - 1], k); }
  }

  function InsertAll(keys: seq<Key>, more: seq<Key>): (r: seq<Key>)
    requires Sorted(keys)
    ensures Sorted(r) && forall k :: k in r <==> k in keys || k in more
  {
    if more == [] then keys
    else
      assert more == more[..|more| - 1] + [more[|more| - 1]];
      Insert(InsertAll(keys, more[..|more| - 1]), more[|more| - 1])
  }

  /** All keys returned, ascending and without doubles. */
  function Merged(results: seq<seq<Key>>): (r: seq<Key>)
    ensures Sorted(r) && forall k :: k in r <==> k in Union(results)
  {
    if results == [] then [] else InsertAll(Merged(results[..|results| - 1]), results[|results| - 1])
  }

  /** ClusterRangeOp::getKeys: merge what the drives returned and cut excess results. */
  method GetKeys(results: seq<seq<Key>>, max: nat) returns (page: seq<Key>)
    ensures page == Front(Merged(results), max) && IsFirst(page, Union(results), max)
  {
    var merged: seq<Key> := [];
    for d := 0 to |results|
      invariant merged == Merged(results[..d])
    {
      assert results[..d + 1][..d] == results[..d];
      ghost var before := merged;
      for i := 0 to |results[d]|
        invariant Sorted(before) && merged == InsertAll(before, results[d][..i])
      {
        assert results[d][..i + 1][..i] == results[d][..i];
        merged := Insert(merged, results[d][i]);
      }
      assert results[d][..|results[d]|] == results[d];
    }
    assert results[..|results|] == results;
    FrontIsFirst(merged, max);
    assert Elements(merged) == Union(results);
    page := merged;
    if |merged| > max {
      page := merged[..max];
    }
  }

  // ----- one page

  /** Which drives hold k. */
  function Holders(drives: seq<seq<Key>>, k: Key): (h: seq<bool>)
    ensures |h| == |drives|
  {
    seq(|drives|, d requires 0 <= d < |drives| => k in drives[d])
  }

  /** Stored on more than numParity drives. */
  ghost predicate IsQuorumKey(drives: seq<seq<Key>>, numParity: nat, k: Key) {
    |Where(Holders(drives, k), true)| > numParity
  }

  lemma {:induction false} Overlap(a: seq<bool>, b: seq<bool>)
    requires |a| == |b| && |Where(a, true)| + |Where(b, true)| > |a|
    ensures exists i :: 0 <= i < |a| && a[i] && b[i]
    decreases |a|
  {
    var n := |a| - 1;
    if !(a[n] && b[n]) {
      Overlap(a[..n], b[..n]);
      var i :| 0 <= i < n && a[..n][i] && b[..n][i];
      assert a[i] && b[i];
    }
  }

  /** The keys in the range that are stored anywhere. */
  ghost function AllKeys(drives: seq<seq<Key>>, start: Key, end: Key): set<Key> {
    set d, k | 0 <= d < |drives| && k in drives[d] && Between(start, k, end) :: k
  }

  /** What the drives that answer return. */
  function Answers(drives: seq<seq<Key>>, answering: seq<bool>, start: Key, end: Key, max: nat): (r: seq<seq<Key>>)
    requires |answering| == |drives|
    ensures |r| == |drives|
  {
    seq(|drives|, d requires 0 <= d < |drives| => if answering[d] then DriveKeys(drives[d], start, end, max) else [])
  }

  /** The page a range request yields. */
  function PageOf(drives: seq<seq<Key>>, answering: seq<bool>, start: Key, end: Key, max: nat): seq<Key>
    requires |answering| == |drives|
  {
    Front(Merged(Answers(drives, answering, start, end, max)), max)
  }

  predicate Quorum(numParity: nat, answering: seq<bool>) {
    |Where(answering, true)| + numParity >= |answering|
  }

  /** KineticCluster::range in either direction: it fails unless all but numParity drives answered. */
  method Range(drives: seq<seq<Key>>, numParity: nat, answering: seq<bool>, start: Key, end: Key, max: nat)
    returns (ok: bool, page: seq<Key>)
    requires |answering| == |drives|
    ensures ok <==> Quorum(numParity, answering)
    ensures ok <==> |Where(answering, false)| <= numParity
    ensures page == if ok then PageOf(drives, answering, start, end, max) else []
  {
    var results: seq<seq<Key>> := [];
    var count := 0;
    ghost var all := Answers(drives, answering, start, end, max);
    for d := 0 to |drives|
      invariant results == all[..d] && count == |Where(answering[..d], true)|
    {
      WherePush(answering, d, true);
      var keys := [];
      if answering[d] {
        keys := DriveRange(drives[d], start, end, max);
        count := count + 1;
      }
      results := results + [keys];
    }
    assert answering[..|drives|] == answering && all[..|drives|] == all;
    WherePartition(answering);
    ok := count + numParity >= |drives|;
    page := [];
    if ok {
      page := GetKeys(results, max);
    }
  }

  /** An ascending request yields a page in the sense of IsPage. */
  lemma {:induction false} AscendingIsPage(
      drives: seq<seq<Key>>, numParity: nat, answering: seq<bool>, start: Key, end: Key, max: nat)
    requires |answering| == |drives| && (forall d :: 0 <= d < |drives| ==> Sorted(drives[d]))
    requires Quorum(numParity, answering) && !Less(end, start)
    ensures IsPage(drives, numParity, start, end, max, PageOf(drives, answering, start, end, max))
  {
    var results := Answers(drives, answering, start, end, max);
    forall e | 0 <= e < |drives| && answering[e] ensures IsFirst(results[e], InRange(drives[e], start, end), max) {
      var f := Filtered(drives[e], start, end);
      FilteredIs(drives[e], start, end);
      FrontIsFirst(f, max);
      assert Elements(f) == InRange(drives[e], start, end);
    }
    FrontIsFirst(Merged(results), max);
    assert Elements(Merged(results)) == Union(results);
    MergedIsPage(drives, numParity, answering, start, end, max, results, PageOf(drives, answering, start, end, max));
  }

  /** A page holds stored keys of the range, ascending; a quorum key is on it or comes after all of it. */
  ghost predicate IsPage(drives: seq<seq<Key>>, numParity: nat, start: Key, end: Key, max: nat, page: seq<Key>) {
    && Sorted(page)
    && (forall k :: k in page ==> k in AllKeys(drives, start, end))
    && (forall k :: IsQuorumKey(drives, numParity, k) && Between(start, k, end) ==>
          k in page || (|page| == max && AllBelow(page, k)))
  }

  /** A quorum key is seen by some answering drive, unless that drive already returned a full page before it. */
  lemma {:induction false} MergedIsPage(
      drives: seq<seq<Key>>, numParity: nat, answering: seq<bool>, start: Key, end: Key, max: nat,
      results: seq<seq<Key>>, page: seq<Key>)
    requires |answering| == |drives| == |results| && |Where(answering, true)| + numParity >= |drives|
    requires forall e :: 0 <= e < |drives| ==>
      if answering[e] then IsFirst(results[e], InRange(drives[e], start, end), max) else results[e] == []
    requires IsFirst(page, Union(results), max)
    ensures IsPage(drives, numParity, start, end, max, page)
  {
    forall k | k in page ensures k in AllKeys(drives, start, end) {
      InUnion(results, k);
      var d :| 0 <= d < |results| && k in results[d];
      assert k in InRange(drives[d], start, end);
    }
    forall k | IsQuorumKey(drives, numParity, k) && Between(start, k, end)
      ensures k in page || (|page| == max && AllBelow(page, k))
    {
      Overlap(Holders(drives, k), answering);
      var d :| 0 <= d < |drives| && Holders(drives, k)[d] && answering[d];
      assert k in InRange(drives[d], start, end);
      if k in results[d] {
        InUnion(results, k);
      } else if k !in page {
        FullPageBefore(results, d, max, page, k);
      }
    }
  }

  /** If one drive returned `max` keys below k, the merged page is full and below k. */
  lemma {:induction false} FullPageBefore(results: seq<seq<Key>>, d: nat, max: nat, page: seq<Key>, k: Key)
    requires d < |results| && |results[d]| == max && Sorted(results[d]) && AllBelow(results[d], k)
    requires IsFirst(page, Union(results), max) && k !in page
    ensures |page| == max && AllBelow(page, k)
  {
    forall x | x in results[d] ensures x in Union(results) { InUnion(results, x); }
    if x :| x in results[d] && x !in page {
      var i :| 0 <= i < |results[d]| && results[d][i] == x;
      forall j | 0 <= j < |page| ensures Less(page[j], k) { Transitive(page[j], x, k); }
    } else {
      SameKeys(results[d], page);
      forall j | 0 <= j < |page| ensures Less(page[j], k) {
        assert page[j] in page;
        assert page[j] in results[d];
      }
    }
  }

  /** A sorted sequence of full length inside a bounded one has exactly its elements. */
  lemma {:induction false} SameKeys(a: seq<Key>, b: seq<Key>)
    requires Sorted(a) && Sorted(b) && |b| <= |a| && forall x :: x in a ==> x in b
    ensures |a| == |b| && forall x :: x in b ==> x in a
  {
    var sa, sb := Elements(a), Elements(b);
    SortedIsDistinct(a);
    SortedIsDistinct(b);
    assert sa <= sb;
    Subset(sa, sb);
    forall x | x in b ensures x in a { assert x in sb; }
  }

  lemma {:induction false} SortedIsDistinct(a: seq<Key>)
    requires Sorted(a)
    ensures |Elements(a)| == |a|
    decreases |a|
  {
    if a != [] {
      var n := |a| - 1;
      SortedIsDistinct(a[..n]);
      assert a == a[..n] + [a[n]];
      forall i | 0 <= i < n ensures a[i] != a[n] { Irreflexive(a[n]); }
      assert Elements(a) == Elements(a[..n]) + {a[n]};
    }
  }

  lemma {:induction false} Subset<T>(a: set<T>, b: set<T>)
    requires a <= b && |b| <= |a|
    ensures a == b
  {
    assert b == a + (b - a);
  }

  // ----- all pages

  /** Everything of interest below `start` has been visited, once and in order. */
  ghost predicate VisitedUpTo(
      drives: seq<seq<Key>>, numParity: nat, from: Key, end: Key, start: Key, visited: seq<Key>) {
    && Sorted(visited) && AllBelow(visited, start) && Between(from, start, end)
    && (forall k :: k in visited ==> k in AllKeys(drives, from, end))
    && (forall k :: IsQuorumKey(drives, numParity, k) && Between(from, k, end) && Less(k, start) ==> k in visited)
  }

  /** One page further. */
  lemma {:induction false} NextPage(
      drives: seq<seq<Key>>, numParity: nat, from: Key, end: Key, start: Key, max: nat, visited: seq<Key>,
      page: seq<Key>)
    requires VisitedUpTo(drives, numParity, from, end, start, visited)
    requires IsPage(drives, numParity, start, end, max, page) && page != []
    requires forall d :: 0 <= d < |drives| ==> end !in drives[d]
    ensures var next := Successor(page[|page| - 1]);
      && VisitedUpTo(drives, numParity, from, end, next, visited + page)
      && AllKeys(drives, next, end) < AllKeys(drives, start, end)
  {
    var last := page[|page| - 1];
    var next, both := Successor(last), visited + page;
    assert last in page && Between(start, last, end);
    SuccessorIsNext(last, end);
    SuccessorIsNext(last, next);
    AtMostLess(start, last, next);
    AtMostLess(from, start, next);
    forall i | 0 <= i < |both| ensures Less(both[i], next) {
      if i < |visited| {
        AtMostLess(both[i], start, next);
      } else {
        AtMostLess(page[i - |visited|], last, next);
      }
    }
    forall i, j | 0 <= i < j < |both| ensures Less(both[i], both[j]) {
      if i < |visited| <= j {
        assert page[j - |visited|] in page;
        AtMostLess(both[i], start, both[j]);
      }
    }
    forall k | k in both ensures k in AllKeys(drives, from, end) {
      if k in page {
        var d :| 0 <= d < |drives| && k in drives[d] && Between(start, k, end);
        AtMostLess(from, start, k);
        assert Between(from, k, end);
      }
    }
    forall k | IsQuorumKey(drives, numParity, k) && Between(from, k, end) && Less(k, next) ensures k in both {
      Total(k, start);
      if !Less(k, start) && k !in page {
        assert Less(last, k);
        SuccessorIsNext(last, k);
        NotBoth(k, next);
      }
    }
    forall k | k in AllKeys(drives, next, end) ensures k in AllKeys(drives, start, end) {
      var d :| 0 <= d < |drives| && k in drives[d] && Between(next, k, end);
      AtMostLess(start, next, k);
      assert Between(start, k, end);
    }
    assert last in AllKeys(drives, start, end);
    NotBoth(last, next);
  }

  /** An empty page means that nothing of interest is left. */
  lemma {:induction false} NothingLeft(
      drives: seq<seq<Key>>, numParity: nat, from: Key, end: Key, start: Key, max: nat, visited: seq<Key>)
    requires VisitedUpTo(drives, numParity, from, end, start, visited)
    requires IsPage(drives, numParity, start, end, max, []) && max > 0
    ensures forall x :: IsQuorumKey(drives, numParity, x) && Between(from, x, end) ==> x in visited
  {
    forall x | IsQuorumKey(drives, numParity, x) && Between(from, x, end) ensures x in visited { Total(x, start); }
  }

  // ----- the loop over pages, for any pages

  type Pager = (nat, Key) -> seq<Key>

  function Behind(page: seq<Key>): Option<Key> {
    if page == [] then None else Some(Successor(page[|page| - 1]))
  }

  /** Where turn k starts, if the loop gets that far: behind the last key of the page before. */
  function StartAt(page: Pager, from: Key, k: nat): Option<Key> {
    if k == 0 then Some(from)
    else
      match StartAt(page, from, k - 1)
      case None => None
      case Some(start) => Behind(page(k - 1, start))
  }

  /** The keys of the first k pages. */
  function VisitedBy(page: Pager, from: Key, k: nat): seq<Key> {
    if k == 0 then []
    else
      VisitedBy(page, from, k - 1) +
      match StartAt(page, from, k - 1)
      case None => []
      case Some(start) => page(k - 1, start)
  }

  /** Every page that is not empty is one of the range. */
  ghost predicate Pages(page: Pager, drives: seq<seq<Key>>, numParity: nat, end: Key, max: nat) {
    forall k, start :: AtMost(start, end) && page(k, start) != [] ==>
      IsPage(drives, numParity, start, end, max, page(k, start))
  }

  ghost predicate NotStored(drives: seq<seq<Key>>, k: Key) {
    forall d :: 0 <= d < |drives| ==> k !in drives[d]
  }

  /** Turn by turn, everything of interest below the start is visited, and fewer keys are left. */
  lemma {:induction false} GoesOn(
      page: Pager, drives: seq<seq<Key>>, numParity: nat, from: Key, end: Key, max: nat, k: nat)
    requires Pages(page, drives, numParity, end, max) && NotStored(drives, end) && AtMost(from, end)
    requires StartAt(page, from, k).Some?
    ensures VisitedUpTo(drives, numParity, from, end, StartAt(page, from, k).value, VisitedBy(page, from, k))
    ensures |AllKeys(drives, StartAt(page, from, k).value, end)| + k <= |AllKeys(drives, from, end)|
    decreases k
  {
    if k == 0 {
      NothingBelow(from);
    } else {
      GoesOn(page, drives, numParity, from, end, max, k - 1);
      var start := StartAt(page, from, k - 1).value;
      assert IsPage(drives, numParity, start, end, max, page(k - 1, start));
      OneTurn(drives, numParity, from, end, start, max, VisitedBy(page, from, k - 1), page(k - 1, start));
    }
  }

  lemma {:induction false} OneTurn(
      drives: seq<seq<Key>>, numParity: nat, from: Key, end: Key, start: Key, max: nat, visited: seq<Key>,
      page: seq<Key>)
    requires VisitedUpTo(drives, numParity, from, end, start, visited) && NotStored(drives, end)
    requires IsPage(drives, numParity, start, end, max, page) && page != []
    ensures VisitedUpTo(drives, numParity, from, end, Behind(page).value, visited + page)
    ensures |AllKeys(drives, Behind(page).value, end)| < |AllKeys(drives, start, end)|
  {
    NextPage(drives, numParity, from, end, start, max, visited, page);
    SmallerSet(AllKeys(drives, Behind(page).value, end), AllKeys(drives, start, end));
  }

  /** The turn at which the loop has ended. */
  lemma {:induction false} EmptyTurn(page: Pager, from: Key, k: nat) returns (j: nat)
    requires StartAt(page, from, k).None?
    ensures j < k && StartAt(page, from, j).Some? && page(j, StartAt(page, from, j).value) == []
    ensures VisitedBy(page, from, k) == VisitedBy(page, from, j)
    decreases k
  {
    j := k - 1;
    if StartAt(page, from, j).None? { j := EmptyTurn(page, from, j); }
  }

  lemma {:induction false} StaysEnded(page: Pager, from: Key, j: nat, k: nat)
    requires j <= k && (StartAt(page, from, j).None? || j == k)
    ensures StartAt(page, from, j).None? ==> StartAt(page, from, k).None?
    ensures VisitedBy(page, from, k) == VisitedBy(page, from, j)
    decreases k
  {
    if j < k { StaysEnded(page, from, j, k - 1); }
  }

  // ----- the listing

  /** The drives, the range listed, the page size, and which drives answer each page. */
  datatype Listing = Listing(drives: seq<seq<Key>>, numParity: nat, from: Key, end: Key, max: nat,
    answering: nat -> seq<bool>) {
    ghost predicate Valid() {
      && max > 0 && AtMost(from, end) && (forall d :: 0 <= d < |drives| ==> Sorted(drives[d]))
      && forall n :: |answering(n)| == |drives|
    }

    ghost predicate HasQuorum() { forall n :: Quorum(numParity, answering(n)) }

    /** The page that a request from `start` yields at turn k, empty if it fails. */
    function Page(k: nat, start: Key): seq<Key> {
      if |answering(k)| == |drives| && Quorum(numParity, answering(k)) then
        PageOf(drives, answering(k), start, end, max)
      else []
    }

    function Start(k: nat): Option<Key> { StartAt(Page, from, k) }

    function Visited(k: nat): seq<Key> { VisitedBy(Page, from, k) }

    ghost predicate Ends() { exists k :: Start(k).None? }

    // ----- no key equal to the end

    lemma {:induction false} TurnIsPage(k: nat, start: Key)
      requires Valid() && AtMost(start, end)
      ensures Page(k, start) != [] ==> Quorum(numParity, answering(k))
      ensures Quorum(numParity, answering(k)) ==> IsPage(drives, numParity, start, end, max, Page(k, start))
    {
      NotAbove(start, end);
      if Quorum(numParity, answering(k)) { AscendingIsPage(drives, numParity, answering(k), start, end, max); }
    }

    lemma {:induction false} TurnsArePages()
      requires Valid()
      ensures Pages(Page, drives, numParity, end, max)
    {
      forall k, start | AtMost(start, end) && Page(k, start) != []
        ensures IsPage(drives, numParity, start, end, max, Page(k, start))
      {
        TurnIsPage(k, start);
      }
    }

    /** Without a stored key equal to the end bound, the listing ends after at most one page per stored key. */
    lemma {:induction false} EndsInTime()
      requires Valid() && NotStored(drives, end)
      ensures Start(|AllKeys(drives, from, end)| + 1).None?
    {
      var k := |AllKeys(drives, from, end)| + 1;
      TurnsArePages();
      if Start(k).Some? { GoesOn(Page, drives, numParity, from, end, max, k); }
    }

    /** What has been visited when the listing has ended: with a quorum at every page, every key of the range that is
        stored on more than numParity drives, exactly once and in ascending order. */
    lemma {:induction false} VisitsAll(k: nat)
      requires Valid() && NotStored(drives, end) && Start(k).None?
      ensures Sorted(Visited(k)) && forall x :: x in Visited(k) ==> x in AllKeys(drives, from, end)
      ensures HasQuorum() ==> forall x :: IsQuorumKey(drives, numParity, x) && Between(from, x, end) ==> x in Visited(k)
    {
      var j := EmptyTurn(Page, from, k);
      TurnsArePages();
      GoesOn(Page, drives, numParity, from, end, max, j);
      LastTurn(j, Start(j).value, Visited(j));
    }

    lemma {:induction false} LastTurn(k: nat, start: Key, visited: seq<Key>)
      requires Valid() && VisitedUpTo(drives, numParity, from, end, start, visited) && Page(k, start) == []
      ensures Sorted(visited) && forall x :: x in visited ==> x in AllKeys(drives, from, end)
      ensures HasQuorum() ==> forall x :: IsQuorumKey(drives, numParity, x) && Between(from, x, end) ==> x in visited
    {
      TurnIsPage(k, start);
      if HasQuorum() {
        assert Quorum(numParity, answering(k));
        NothingLeft(drives, numParity, from, end, start, max, visited);
      }
    }

    // ----- a key equal to the end

    /** The end bound is in every range, whichever way it runs, so a drive that holds it always returns something. */
    lemma {:induction false} NeverEmpty(k: nat, start: Key, d: nat)
      requires Valid() && d < |drives| && end in drives[d] && answering(k)[d] && Quorum(numParity, answering(k))
      ensures Page(k, start) != []
    {
      var results := Answers(drives, answering(k), start, end, max);
      HolderAnswers(drives[d], start);
      assert results[d] != [];
      InUnion(results, results[d][0]);
      assert results[d][0] in Merged(results);
    }

    lemma {:induction false} HolderAnswers(drive: seq<Key>, start: Key)
      requires Sorted(drive) && end in drive && max > 0
      ensures DriveKeys(drive, start, end, max) != []
    {
      Total(start, end);
      if Less(end, start) { FilteredIs(drive, end, start); } else { FilteredIs(drive, start, end); }
    }

    /** A drive that holds it and always answers keeps the listing going for ever, whatever else is stored. */
    lemma {:induction false} NeverEnds(k: nat, d: nat)
      requires Valid() && HasQuorum() && d < |drives| && end in drives[d] && forall n :: answering(n)[d]
      ensures Start(k).Some?
      decreases k
    {
      if k > 0 {
        NeverEnds(k - 1, d);
        NeverEmpty(k - 1, Start(k - 1).value, d);
      }
    }
  }

  /** A listing ends under every schedule of answers that meets the quorum if and only if no drive holds a key equal to
      the end of the range. */
  lemma {:induction false} ListingEndsExactly(l: Listing)
    requires l.Valid()
    ensures NotStored(l.drives, l.end) <==>
      forall answering: nat -> seq<bool> {:trigger l.(answering := answering)} ::
        l.(answering := answering).Valid() && l.(answering := answering).HasQuorum() ==>
          l.(answering := answering).Ends()
  {
    if NotStored(l.drives, l.end) {
      forall answering: nat -> seq<bool> | l.(answering := answering).Valid()
        ensures l.(answering := answering).Ends()
      {
        l.(answering := answering).EndsInTime();
      }
    } else {
      var d :| 0 <= d < |l.drives| && l.end in l.drives[d];
      var all := (n: nat) => seq(|l.drives|, i => true);
      var m := l.(answering := all);
      assert m.HasQuorum() by {
        forall n ensures Quorum(l.numParity, m.answering(n)) { AllAnswer(|l.drives|); }
      }
      forall k ensures m.Start(k).Some? { m.NeverEnds(k, d); }
    }
  }

  lemma {:induction false} AllAnswer(n: nat)
    ensures |Where(seq(n, i => true), true)| == n
  {
    if n > 0 {
      AllAnswer(n - 1);
      assert seq(n, i => true)[..n - 1] == seq(n - 1, i => true);
    }
  }

  lemma {:induction false} NotAbove(a: Key, b: Key)
    requires AtMost(a, b)
    ensures !Less(b, a)
  {
    Irreflexive(a);
    if Less(b, a) { NotBoth(b, a); }
  }

  lemma {:induction false} SmallerSet<T>(a: set<T>, b: set<T>)
    requires a < b
    ensures |a| < |b|
  {
    var x :| x in b && x !in a;
    assert a <= b - {x};
    Smaller(a, b - {x});
  }

  lemma {:induction false} Smaller<T>(a: set<T>, b: set<T>)
    requires a <= b
    ensures |a| <= |b|
  {
    assert b == a + (b - a);
  }

  /** KineticAdminCluster::doOperation: list page after page until one is empty or fails, restarting behind the last
      key, or until the callback asks to stop after `pages` of them. */
  method VisitAll(l: Listing, pages: nat) returns (ended: bool, visited: seq<Key>)
    requires l.Valid()
    ensures ended == l.Start(pages).None? && visited == l.Visited(pages)
  {
    visited := [];
    var start, k := Some(l.from), 0;
    while k < pages && start.Some?
      invariant k <= pages && visited == l.Visited(k) && start == l.Start(k)
    {
      var page := Turn(l, k, start.value);
      visited, start, k := visited + page, Behind(page), k + 1;
    }
    StaysEnded(l.Page, l.from, k, pages);
    ended := start.None?;
  }

  /** One request of the loop; a failed one ends it like an empty page. */
  method Turn(l: Listing, k: nat, start: Key) returns (page: seq<Key>)
    requires l.Valid()
    ensures page == l.Page(k, start)
  {
    var ok;
    ok, page := Range(l.drives, l.numParity, l.answering(k), start, l.end, l.max);
  }

  lemma {:induction false} NothingBelow(from: Key)
    ensures forall k :: Less(k, from) ==> !AtMost(from, k)
  {
    forall k | Less(k, from) ensures !AtMost(from, k) { NotBoth(k, from); }
  }
}
