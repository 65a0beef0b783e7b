/** FileIo::get_eof_backend: the number of a file's last block, from the keys that the drives hold.

Every drive is asked for the largest key in the range of the file's blocks. The answers are merged in ascending order
and cut to one, so that what counts is the smallest of the largest keys. */
module LastBlock {
  import opened Wrappers
  import opened Redundancy
  import opened Paging
  import opened Keys

  const LAST: nat := 999_999_999

  ghost predicate IsLargest(drive: seq<Key>, low: Key, high: Key, k: Key) {
    k in drive && Between(low, k, high) && forall x :: x in drive && Between(low, x, high) ==> AtMost(x, k)
  }

  /** k is the largest key in the range on some drive that answers, and none of the others has to do with less. */
  ghost predicate SmallestLargest(drives: seq<seq<Key>>, answering: seq<bool>, low: Key, high: Key, k: Key)
    requires |answering| == |drives|
  {
    && (exists d :: 0 <= d < |drives| && answering[d] && IsLargest(drives[d], low, high, k))
    && (forall e, x :: 0 <= e < |drives| && answering[e] && x in drives[e] && Between(low, x, high) ==>
          ReachesTo(drives[e], low, high, k))
  }

  ghost predicate ReachesTo(drive: seq<Key>, low: Key, high: Key, k: Key) {
    exists x :: x in drive && Between(low, x, high) && AtMost(k, x)
  }

  /** What a drive returns to a reverse request for one key. */
  lemma {:induction false} BackIsLargest(drive: seq<Key>, low: Key, high: Key)
    requires Sorted(drive) && Less(low, high)
    ensures var r := DriveKeys(drive, high, low, 1);
      if r == [] then forall x :: x in drive ==> !Between(low, x, high)
      else |r| == 1 && IsLargest(drive, low, high, r[0])
  {
    var f := Filtered(drive, low, high);
    FilteredIs(drive, low, high);
    if f != [] {
      var k := f[|f| - 1];
      forall x | x in drive && Between(low, x, high) ensures AtMost(x, k) {
        var i :| 0 <= i < |f| && f[i] == x;
      }
    }
  }

  lemma {:induction false} Antisymmetric(a: Key, b: Key)
    requires AtMost(a, b) && AtMost(b, a)
    ensures a == b
  {
    if Less(a, b) { NotBoth(a, b); }
  }

  ghost predicate OutOfRange(drive: seq<Key>, low: Key, high: Key) {
    forall x :: x in drive ==> !Between(low, x, high)
  }

  /** Each drive that answers returns its largest key in the range, if it has any. */
  ghost predicate LargestKeys(drives: seq<seq<Key>>, answering: seq<bool>, low: Key, high: Key, results: seq<seq<Key>>)
    requires |answering| == |drives|
  {
    && |results| == |drives|
    && forall d :: 0 <= d < |drives| ==>
         if results[d] == [] then !answering[d] || OutOfRange(drives[d], low, high)
         else |results[d]| == 1 && answering[d] && IsLargest(drives[d], low, high, results[d][0])
  }

  lemma {:induction false} AnswersAreLargest(drives: seq<seq<Key>>, answering: seq<bool>, low: Key, high: Key)
    requires |answering| == |drives| && Less(low, high) && forall d :: 0 <= d < |drives| ==> Sorted(drives[d])
    ensures LargestKeys(drives, answering, low, high, Answers(drives, answering, high, low, 1))
  {
    forall d | 0 <= d < |drives| && answering[d] ensures
      var r := DriveKeys(drives[d], high, low, 1);
      if r == [] then OutOfRange(drives[d], low, high) else |r| == 1 && IsLargest(drives[d], low, high, r[0])
    {
      BackIsLargest(drives[d], low, high);
    }
  }

  /** The first of the merged answers. */
  lemma {:induction false} FirstOfLargest(
      drives: seq<seq<Key>>, answering: seq<bool>, low: Key, high: Key, results: seq<seq<Key>>, merged: seq<Key>)
    requires |answering| == |drives| && LargestKeys(drives, answering, low, high, results)
    requires Sorted(merged) && forall k :: k in merged <==> k in Union(results)
    ensures if merged == [] then forall d :: 0 <= d < |drives| && answering[d] ==> OutOfRange(drives[d], low, high)
            else SmallestLargest(drives, answering, low, high, merged[0])
  {
    forall d | 0 <= d < |drives| && answering[d]
      ensures OutOfRange(drives[d], low, high) || (merged != [] && ReachesTo(drives[d], low, high, merged[0]))
    {
      if results[d] != [] {
        var y := results[d][0];
        InUnion(results, y);
        assert y in merged;
        var i :| 0 <= i < |merged| && merged[i] == y;
        assert AtMost(merged[0], y);
      }
    }
    if merged != [] {
      assert merged[0] in merged;
      InUnion(results, merged[0]);
      var d :| 0 <= d < |results| && merged[0] in results[d];
      assert IsLargest(drives[d], low, high, merged[0]);
    }
  }

  /** The front of a reverse page of one key. */
  lemma {:induction false} FrontIsSmallestLargest(drives: seq<seq<Key>>, answering: seq<bool>, low: Key, high: Key)
    requires |answering| == |drives| && Less(low, high) && forall d :: 0 <= d < |drives| ==> Sorted(drives[d])
    ensures var page := PageOf(drives, answering, high, low, 1);
      if page == [] then forall d :: 0 <= d < |drives| && answering[d] ==> OutOfRange(drives[d], low, high)
      else SmallestLargest(drives, answering, low, high, page[0])
  {
    var results := Answers(drives, answering, high, low, 1);
    AnswersAreLargest(drives, answering, low, high);
    FirstOfLargest(drives, answering, low, high, results, Merged(results));
  }

  /** There is only one such key. */
  lemma {:induction false} SmallestLargestUnique(
      drives: seq<seq<Key>>, answering: seq<bool>, low: Key, high: Key, k: Key, m: Key)
    requires |answering| == |drives|
    requires SmallestLargest(drives, answering, low, high, k) && SmallestLargest(drives, answering, low, high, m)
    ensures k == m
  {
    NotAfter(drives, answering, low, high, k, m);
    NotAfter(drives, answering, low, high, m, k);
    Antisymmetric(k, m);
  }

  lemma {:induction false} NotAfter(drives: seq<seq<Key>>, answering: seq<bool>, low: Key, high: Key, k: Key, m: Key)
    requires |answering| == |drives|
    requires SmallestLargest(drives, answering, low, high, k) && SmallestLargest(drives, answering, low, high, m)
    ensures AtMost(k, m)
  {
    var e :| 0 <= e < |drives| && answering[e] && IsLargest(drives[e], low, high, m);
    assert ReachesTo(drives[e], low, high, k);
    var x :| x in drives[e] && Between(low, x, high) && AtMost(k, x);
    AtMostLess(k, x, m);
  }

  // ----- the blocks of a file

  /** The key that get_eof_backend looks at, if it finds any. */
  function BackendKey(drives: seq<seq<Key>>, answering: seq<bool>, cluster: string, path: string): Option<Key>
    requires |answering| == |drives|
  {
    var page := PageOf(drives, answering, DataKey(cluster, path, LAST), DataKey(cluster, path, 0), 1);
    if page == [] then None else Some(page[0])
  }

  ghost predicate HasBlock(drive: seq<Key>, cluster: string, path: string) {
    exists k :: k in drive && InBlockRange(cluster, path, k)
  }

  /** Exactly when it finds key k: k is the smallest of the largest keys in the range. */
  lemma {:induction false} BackendKeyIs(
      drives: seq<seq<Key>>, answering: seq<bool>, cluster: string, path: string, k: Key)
    requires |answering| == |drives| && forall d :: 0 <= d < |drives| ==> Sorted(drives[d])
    ensures BackendKey(drives, answering, cluster, path) == Some(k) <==>
      SmallestLargest(drives, answering, DataKey(cluster, path, 0), DataKey(cluster, path, LAST), k)
  {
    var low, high := DataKey(cluster, path, 0), DataKey(cluster, path, LAST);
    DataKeyOrder(cluster, path, 0, LAST);
    FrontIsSmallestLargest(drives, answering, low, high);
    if SmallestLargest(drives, answering, low, high, k) && BackendKey(drives, answering, cluster, path).Some? {
      SmallestLargestUnique(drives, answering, low, high, k, BackendKey(drives, answering, cluster, path).value);
    }
  }

  /** No drive that answers holds a key of the range above k. */
  ghost predicate IsTop(drives: seq<seq<Key>>, answering: seq<bool>, cluster: string, path: string, k: Key)
    requires |answering| == |drives|
  {
    && InBlockRange(cluster, path, k)
    && forall d, x :: 0 <= d < |drives| && answering[d] && x in drives[d] && InBlockRange(cluster, path, x) ==>
       AtMost(x, k)
  }

  /** Some drive that answers holds k, and so does every one that holds anything in the range. */
  ghost predicate HeldByAll(drives: seq<seq<Key>>, answering: seq<bool>, cluster: string, path: string, k: Key)
    requires |answering| == |drives|
  {
    && (exists d :: 0 <= d < |drives| && answering[d] && k in drives[d])
    && (forall d :: 0 <= d < |drives| && answering[d] && HasBlock(drives[d], cluster, path) ==> k in drives[d])
  }

  /** The last key of the range is found if and only if every answering drive that holds any key of the range holds
      this one. */
  lemma {:induction false} TopKeyFound(
      drives: seq<seq<Key>>, answering: seq<bool>, cluster: string, path: string, k: Key)
    requires |answering| == |drives| && forall d :: 0 <= d < |drives| ==> Sorted(drives[d])
    requires IsTop(drives, answering, cluster, path, k)
    ensures BackendKey(drives, answering, cluster, path) == Some(k) <==> HeldByAll(drives, answering, cluster, path, k)
  {
    var low, high := DataKey(cluster, path, 0), DataKey(cluster, path, LAST);
    BackendKeyIs(drives, answering, cluster, path, k);
    if SmallestLargest(drives, answering, low, high, k) {
      forall d | 0 <= d < |drives| && answering[d] && HasBlock(drives[d], cluster, path) ensures k in drives[d] {
        var y :| y in drives[d] && InBlockRange(cluster, path, y);
        assert Between(low, y, high);
        assert ReachesTo(drives[d], low, high, k);
        var x :| x in drives[d] && Between(low, x, high) && AtMost(k, x);
        assert InBlockRange(cluster, path, x);
        Antisymmetric(k, x);
      }
    }
    if HeldByAll(drives, answering, cluster, path, k) {
      var d :| 0 <= d < |drives| && answering[d] && k in drives[d];
      forall x | x in drives[d] && Between(low, x, high) ensures AtMost(x, k) { assert InBlockRange(cluster, path, x); }
      assert IsLargest(drives[d], low, high, k);
      forall e, x | 0 <= e < |drives| && answering[e] && x in drives[e] && Between(low, x, high)
        ensures ReachesTo(drives[e], low, high, k)
      {
        assert InBlockRange(cluster, path, x);
        assert HasBlock(drives[e], cluster, path);
        assert k in drives[e];
      }
    }
  }

  // ----- the answer

  /** The number of the last block, or the exception thrown. */
  datatype Eof = Last(block: nat) | NoSuchFile | IoError | NotANumber

  /** `exists_`: the metadata key of the file can be read. */
  function EofOf(
      drives: seq<seq<Key>>, numParity: nat, answering: seq<bool>, cluster: string, path: string, exists_: bool): Eof
    requires |answering| == |drives|
  {
    if !Quorum(numParity, answering) then IoError
    else
      match BackendKey(drives, answering, cluster, path)
      case Some(k) => (match TrailingNumber(k) case Some(n) => Last(n) case None => NotANumber)
      case None => if exists_ then Last(0) else NoSuchFile
  }

  /** get_eof_backend. */
  method GetEofBackend(
      drives: seq<seq<Key>>, numParity: nat, answering: seq<bool>, cluster: string, path: string, exists_: bool)
    returns (r: Eof)
    requires |answering| == |drives|
    ensures r == EofOf(drives, numParity, answering, cluster, path, exists_)
  {
    var ok, keys := Range(drives, numParity, answering, DataKey(cluster, path, LAST), DataKey(cluster, path, 0), 1);
    if !ok {
      return IoError;
    }
    if |keys| > 0 {
      var number := TrailingNumber(keys[0]);
      return if number.Some? then Last(number.value) else NotANumber;
    }
    r := if exists_ then Last(0) else NoSuchFile;
  }

  /** All keys of the range that are stored are blocks of the file, none of them behind `last`. */
  ghost predicate OwnUpTo(drives: seq<seq<Key>>, cluster: string, path: string, last: nat) {
    forall d, k :: 0 <= d < |drives| && k in drives[d] && InBlockRange(cluster, path, k) ==>
      IsOwn(cluster, path, last, k)
  }

  ghost predicate IsOwn(cluster: string, path: string, last: nat, k: Key) {
    exists b: nat :: b <= last && k == DataKey(cluster, path, b)
  }

  lemma {:induction false} OwnIsBelow(cluster: string, path: string, last: nat, k: Key)
    requires last <= LAST && IsOwn(cluster, path, last, k)
    ensures AtMost(k, DataKey(cluster, path, last)) && TrailingNumber(k).Some? && TrailingNumber(k).value <= last
    ensures TrailingNumber(k) == Some(last) <==> k == DataKey(cluster, path, last)
  {
    var b: nat :| b <= last && k == DataKey(cluster, path, b);
    DataKeyOrder(cluster, path, b, last);
    DataKeyUnique(cluster, path, b, path, last);
    BlockNumberRecovered(cluster, path, b);
    BlockNumberRecovered(cluster, path, last);
  }

  /** What is found is on a drive, and in the range. */
  lemma {:induction false} FoundIsStored(drives: seq<seq<Key>>, answering: seq<bool>, cluster: string, path: string)
    requires |answering| == |drives| && forall d :: 0 <= d < |drives| ==> Sorted(drives[d])
    ensures match BackendKey(drives, answering, cluster, path)
      case Some(k) => exists d :: 0 <= d < |drives| && answering[d] && k in drives[d] && InBlockRange(cluster, path, k)
      case None => forall d :: 0 <= d < |drives| && answering[d] ==> !HasBlock(drives[d], cluster, path)
  {
    var low, high := DataKey(cluster, path, 0), DataKey(cluster, path, LAST);
    DataKeyOrder(cluster, path, 0, LAST);
    FrontIsSmallestLargest(drives, answering, low, high);
    match BackendKey(drives, answering, cluster, path)
    case Some(k) =>
      var d :| 0 <= d < |drives| && answering[d] && IsLargest(drives[d], low, high, k);
      assert InBlockRange(cluster, path, k);
    case None =>
      forall d | 0 <= d < |drives| && answering[d] ensures !HasBlock(drives[d], cluster, path) {
        forall k | k in drives[d] ensures !InBlockRange(cluster, path, k) { assert !Between(low, k, high); }
      }
  }

  /** Which exception is thrown: an I/O error exactly if more than numParity drives are silent; no such file exactly if,
      with a quorum, no answering drive holds a key of the range and the metadata key cannot be read. */
  lemma {:induction false} ErrorsExactly(
      drives: seq<seq<Key>>, numParity: nat, answering: seq<bool>, cluster: string, path: string, exists_: bool)
    requires |answering| == |drives| && forall d :: 0 <= d < |drives| ==> Sorted(drives[d])
    ensures var eof := EofOf(drives, numParity, answering, cluster, path, exists_);
      && (eof == IoError <==> |Where(answering, false)| > numParity)
      && (eof == NoSuchFile <==>
            && |Where(answering, false)| <= numParity && !exists_
            && forall d :: 0 <= d < |drives| && answering[d] ==> !HasBlock(drives[d], cluster, path))
  {
    WherePartition(answering);
    FoundIsStored(drives, answering, cluster, path);
    if BackendKey(drives, answering, cluster, path).Some? {
      var k := BackendKey(drives, answering, cluster, path).value;
      var d :| 0 <= d < |drives| && answering[d] && k in drives[d] && InBlockRange(cluster, path, k);
      assert HasBlock(drives[d], cluster, path);
    }
  }

  /** With a quorum and no foreign key in the range, the answer is the file's last block if and only if every
      answering drive that holds any block of the file holds the last one, and is too small otherwise. A file without
      blocks ends in block 0, if it exists. */
  lemma {:induction false} LastBlockExactly(
      drives: seq<seq<Key>>, numParity: nat, answering: seq<bool>, cluster: string, path: string, exists_: bool,
      last: nat)
    requires |answering| == |drives| && forall d :: 0 <= d < |drives| ==> Sorted(drives[d])
    requires Quorum(numParity, answering) && last <= LAST && OwnUpTo(drives, cluster, path, last)
    ensures EofOf(drives, numParity, answering, cluster, path, exists_) == Last(last) <==>
      || HeldByAll(drives, answering, cluster, path, DataKey(cluster, path, last))
      || (last == 0 && exists_ && forall d :: 0 <= d < |drives| && answering[d] ==> !HasBlock(drives[d], cluster, path))
    ensures var eof := EofOf(drives, numParity, answering, cluster, path, exists_);
      (eof.Last? && eof.block <= last) || (eof == NoSuchFile && !exists_)
  {
    var k := DataKey(cluster, path, last);
    OwnBlocksInRange(cluster, path, last);
    forall d, x | 0 <= d < |drives| && answering[d] && x in drives[d] && InBlockRange(cluster, path, x)
      ensures AtMost(x, k)
    {
      assert IsOwn(cluster, path, last, x);
      OwnIsBelow(cluster, path, last, x);
    }
    TopKeyFound(drives, answering, cluster, path, k);
    BlockNumberRecovered(cluster, path, last);
    FoundIsStored(drives, answering, cluster, path);
    match BackendKey(drives, answering, cluster, path)
    case Some(x) =>
      assert IsOwn(cluster, path, last, x);
      OwnIsBelow(cluster, path, last, x);
      var d :| 0 <= d < |drives| && answering[d] && x in drives[d] && InBlockRange(cluster, path, x);
      assert HasBlock(drives[d], cluster, path);
    case None =>
      assert !HeldByAll(drives, answering, cluster, path, k) by {
        forall d | 0 <= d < |drives| && answering[d] ensures k !in drives[d] {
          assert !HasBlock(drives[d], cluster, path);
        }
      }
  }

  /** A block of a file named like a block of p, if nothing in the range of p is above it, is taken for the last block
      of p if every answering drive that holds any key of the range holds it, and is not looked at otherwise. */
  lemma {:induction false} ForeignLastBlock(
      drives: seq<seq<Key>>, numParity: nat, answering: seq<bool>, cluster: string, p: string, exists_: bool,
      last: nat, block: nat)
    requires |answering| == |drives| && forall d :: 0 <= d < |drives| ==> Sorted(drives[d])
    requires Quorum(numParity, answering) && last < LAST && block <= MAX_INT
    requires IsTop(drives, answering, cluster, p, DataKey(cluster, p + "_" + Fixed(last, 10), block))
    ensures var key := DataKey(cluster, p + "_" + Fixed(last, 10), block);
      && (BackendKey(drives, answering, cluster, p) == Some(key) <==> HeldByAll(drives, answering, cluster, p, key))
      && (HeldByAll(drives, answering, cluster, p, key) ==>
            EofOf(drives, numParity, answering, cluster, p, exists_) == Last(block))
  {
    var key := DataKey(cluster, p + "_" + Fixed(last, 10), block);
    NamedLikeBlock(cluster, p, last, block);
    TopKeyFound(drives, answering, cluster, p, key);
  }

  /** Four drives and stripes of three chunks: block 0 is on drives 0 to 2, block 1 on drives 1 to 3, and all drives
      answer. The answer is 0. */
  lemma {:induction false} MoreDrivesThanChunks(cluster: string, path: string, numParity: nat, exists_: bool)
    ensures var k0, k1 := DataKey(cluster, path, 0), DataKey(cluster, path, 1);
      EofOf([[k0], [k0, k1], [k0, k1], [k1]], numParity, [true, true, true, true], cluster, path, exists_) == Last(0)
  {
    var k0, k1 := DataKey(cluster, path, 0), DataKey(cluster, path, 1);
    var drives, answering := [[k0], [k0, k1], [k0, k1], [k1]], [true, true, true, true];
    DataKeyOrder(cluster, path, 0, 1);
    AllAnswer(4);
    assert answering == seq(4, i => true);
    OwnBlocksInRange(cluster, path, 0);
    BlockNumberRecovered(cluster, path, 0);
    BackendKeyIs(drives, answering, cluster, path, k0);
    LowestIsEnough(drives, answering, k0, DataKey(cluster, path, LAST));
  }

  /** A drive that holds nothing but the lower bound determines the answer. */
  lemma {:induction false} LowestIsEnough(drives: seq<seq<Key>>, answering: seq<bool>, low: Key, high: Key)
    requires |answering| == |drives| > 0 && drives[0] == [low] && answering[0] && AtMost(low, high)
    ensures SmallestLargest(drives, answering, low, high, low)
  {
    assert IsLargest(drives[0], low, high, low);
    forall e, x | 0 <= e < |drives| && answering[e] && x in drives[e] && Between(low, x, high)
      ensures ReachesTo(drives[e], low, high, low)
    {
    }
  }
}
