/** Sweeps of the block cache from the tail of its list, as values: what goes, what stays and in what order. */
module CacheSweeps {
  import opened Sequences
  import opened CacheState

  /** What the outside world does to the blocks while the cache works on its lists: which are held by somebody
      else, which hold unflushed data, which were not accessed for five seconds, and for which a flush succeeds. */
  datatype World = World(shared: set<nat>, dirty: set<nat>, expired: set<nat>, flushable: set<nat>)

  /** What a shrink sweep may throw away: nothing that is shared, nothing with unflushed data. */
  predicate MayDiscard(w: World, id: nat) {
    id !in w.shared && (id !in w.dirty || id in w.flushable)
  }

  /** What may go without a flush. */
  predicate IsClean(w: World, id: nat) {
    id !in w.shared && id !in w.dirty
  }

  predicate IsIdle(items: map<nat, Item>, w: World, id: nat) {
    IsClean(w, id) && (id in w.expired || (id in items && items[id].owners == {}))
  }

  ghost function Idle(items: map<nat, Item>, s: seq<nat>, w: World): set<nat> {
    set x | x in s && IsIdle(items, w, x)
  }

  ghost function Clean(s: seq<nat>, w: World): set<nat> { set x | x in s && IsClean(w, x) }

  ghost function Loose(s: seq<nat>, w: World): set<nat> { set x | x in s && MayDiscard(w, x) }

  function Share(size: int, of: nat): int { if of == 0 then 0 else size / of }

  /** The list without the items that go. */
  ghost function Kept(s: seq<nat>, go: set<nat>): seq<nat> {
    if s == [] then [] else (if s[0] in go then [] else [s[0]]) + Kept(s[1..], go)
  }

  /** A sweep from the tail of `before` that has come down to position i. */
  ghost function SweptTo(before: seq<nat>, i: nat, go: set<nat>): seq<nat>
    requires i < |before|
  {
    before[..i + 1] + Kept(before[i + 1..], go)
  }

  lemma {:induction false} KeptIs(s: seq<nat>, go: set<nat>)
    ensures forall x :: x in Kept(s, go) <==> x in s && x !in go
    decreases |s|
  {
    if s != [] {
      assert s == [s[0]] + s[1..];
      KeptIs(s[1..], go);
    }
  }

  lemma {:induction false} SweptIs(before: seq<nat>, i: nat, go: set<nat>)
    requires i < |before|
    ensures SweptTo(before, i, go)[0] == before[0]
    ensures forall x :: x in SweptTo(before, i, go) ==> x in before
    ensures forall x :: x in before && x !in SweptTo(before, i, go) ==> x in go && x in before[i + 1..]
  {
    KeptIs(before[i + 1..], go);
    assert before == before[..i + 1] + before[i + 1..];
  }

  /** Oldest first: in one sweep no item that stays although it may go is older than one that goes. */
  lemma {:induction false} OldestFirst(before: seq<nat>, i: nat, go: set<nat>, newer: nat, older: nat)
    requires i < |before| && newer < older < |before| && Distinct(before)
    requires before[newer] !in SweptTo(before, i, go) && before[older] in SweptTo(before, i, go)
    ensures before[older] !in go
  {
    SweptIs(before, i, go);
    KeptIs(before[i + 1..], go);
    var k :| 0 <= k < |before[i + 1..]| && before[i + 1..][k] == before[newer];
    assert i + 1 + k == newer;
    assert before[older] !in before[..i + 1];
  }

  /** One position further down. */
  lemma {:induction false} SweptOne(before: seq<nat>, i: nat, go: set<nat>)
    requires 0 < i < |before|
    ensures var cache := SweptTo(before, i, go);
      && cache[i] == before[i]
      && SweptTo(before, i - 1, go) == if before[i] in go then cache[..i] + cache[i + 1..] else cache
  {
    var cache := SweptTo(before, i, go);
    assert before[i..][1..] == before[i + 1..];
    assert cache[i + 1..] == Kept(before[i + 1..], go) && cache[..i] == before[..i];
    assert before[..i + 1] == before[..i] + [before[i]];
  }

  lemma {:induction false} SweptNone(before: seq<nat>, go: set<nat>)
    requires before != []
    ensures SweptTo(before, |before| - 1, go) == before
  {
    assert before[..|before|] == before;
  }

  /** The first sweep ends after a tenth of the items, or at the front. */
  ghost predicate SweptIdle(items: map<nat, Item>, before: seq<nat>, cache: seq<nat>, share: int, w: World) {
    exists i :: 0 <= i < |before| && cache == SweptTo(before, i, Idle(items, before, w)) &&
      (i == 0 || share <= 10 * (|before| - 1 - i)) && (i + 1 < |before| ==> share > 10 * (|before| - 2 - i))
  }

  lemma {:induction false} IdleEnds(items: map<nat, Item>, before: seq<nat>, i: nat, share: int, w: World)
    requires i < |before| && (i == 0 || share <= 10 * (|before| - 1 - i))
    requires i + 1 < |before| ==> share > 10 * (|before| - 2 - i)
    ensures SweptIdle(items, before, SweptTo(before, i, Idle(items, before, w)), share, w)
  {
  }

  /** A forced sweep ends as soon as the rest fits, and not before, or at the front. */
  ghost predicate Trimmed(items: map<nat, Item>, capacity: nat, before: seq<nat>, cache: seq<nat>, go: set<nat>) {
    exists i :: 0 <= i < |before| && cache == SweptTo(before, i, go) && Stops(items, capacity, before, go, i)
  }

  ghost predicate Stops(items: map<nat, Item>, capacity: nat, before: seq<nat>, go: set<nat>, i: nat)
    requires i < |before|
  {
    && (i == 0 || Sum(items, SweptTo(before, i, go)) <= capacity)
    && (i + 1 < |before| ==> capacity < Sum(items, SweptTo(before, i + 1, go)))
  }

  lemma {:induction false} TrimEnds(items: map<nat, Item>, capacity: nat, before: seq<nat>, go: set<nat>, i: nat)
    requires i < |before| && Stops(items, capacity, before, go, i)
    ensures Trimmed(items, capacity, before, SweptTo(before, i, go), go)
  {
  }

  /** What is gone may go, and the newest item is not gone. */
  ghost predicate Spares(before: seq<nat>, cache: seq<nat>, w: World) {
    && before != [] && cache != [] && cache[0] == before[0]
    && (forall x :: x in cache ==> x in before)
    && (forall x :: x in before && x !in cache ==> MayDiscard(w, x))
  }

  /** Nothing behind the front may go. */
  ghost predicate NothingMayGo(cache: seq<nat>, w: World) {
    forall j :: 0 < j < |cache| ==> !MayDiscard(w, cache[j])
  }

  lemma {:induction false} IdleSpares(items: map<nat, Item>, before: seq<nat>, cache: seq<nat>, share: int, w: World)
    requires SweptIdle(items, before, cache, share, w)
    ensures Spares(before, cache, w)
  {
    var i :| 0 <= i < |before| && cache == SweptTo(before, i, Idle(items, before, w)) &&
      (i == 0 || share <= 10 * (|before| - 1 - i)) && (i + 1 < |before| ==> share > 10 * (|before| - 2 - i));
    SweptIs(before, i, Idle(items, before, w));
  }

  lemma {:induction false} TrimmedSpares(
      items: map<nat, Item>, capacity: nat, before: seq<nat>, cache: seq<nat>, go: set<nat>, w: World)
    requires Trimmed(items, capacity, before, cache, go) && go <= Loose(before, w)
    ensures Spares(before, cache, w)
  {
    var i :| 0 <= i < |before| && cache == SweptTo(before, i, go) && Stops(items, capacity, before, go, i);
    SweptIs(before, i, go);
  }

  /** The last sweep leaves the cache over its capacity only if nothing else may go. */
  lemma {:induction false} TrimmedEnds(
      items: map<nat, Item>, capacity: nat, before: seq<nat>, cache: seq<nat>, w: World)
    requires Trimmed(items, capacity, before, cache, Loose(before, w))
    ensures Sum(items, cache) <= capacity || NothingMayGo(cache, w)
  {
    var go := Loose(before, w);
    var i :| 0 <= i < |before| && cache == SweptTo(before, i, go) && Stops(items, capacity, before, go, i);
    if i == 0 {
      KeptIs(before[1..], go);
      forall j | 0 < j < |cache| ensures !MayDiscard(w, cache[j]) {
        assert cache[j] == Kept(before[1..], go)[j - 1];
        assert cache[j] in Kept(before[1..], go) && before == before[..1] + before[1..];
      }
    }
  }

  /** How many items like the oldest one make up the size of the cache. */
  ghost function Number(s: State): int {
    if s.cache == [] then 0 else Share(s.currentSize, SizeOf(s.items, s.cache[|s.cache| - 1]))
  }

  /** try_shrink: the sweep for idle items and, only if that is not enough, those for clean ones and for the rest. */
  ghost predicate Shrunk(s: State, once: seq<nat>, twice: seq<nat>, cache: seq<nat>, share: int, w: World) {
    && SweptIdle(s.items, s.cache, once, share, w)
    && if Sum(s.items, once) <= s.capacity then cache == once
       else
         && Trimmed(s.items, s.capacity, once, twice, Clean(once, w))
         && Trimmed(s.items, s.capacity, twice, cache, Loose(twice, w))
  }

  lemma {:induction false} ShrunkSpares(
      s: State, once: seq<nat>, twice: seq<nat>, cache: seq<nat>, share: int, w: World)
    requires Shrunk(s, once, twice, cache, share, w)
    ensures Spares(s.cache, cache, w) && (Sum(s.items, cache) <= s.capacity || NothingMayGo(cache, w))
  {
    IdleSpares(s.items, s.cache, once, share, w);
    if Sum(s.items, once) > s.capacity {
      TrimmedSpares(s.items, s.capacity, once, twice, Clean(once, w), w);
      TrimmedSpares(s.items, s.capacity, twice, cache, Loose(twice, w), w);
      TrimmedEnds(s.items, s.capacity, twice, cache, w);
      SparesTwice(s.cache, once, twice, w);
      SparesTwice(s.cache, twice, cache, w);
    }
  }

  lemma {:induction false} SparesTwice(a: seq<nat>, b: seq<nat>, c: seq<nat>, w: World)
    requires Spares(a, b, w) && Spares(b, c, w)
    ensures Spares(a, c, w)
  {
    forall x | x in a && x !in c ensures MayDiscard(w, x) { assert x in b || x !in b; }
  }

  lemma {:induction false} SumKept(items: map<nat, Item>, a: seq<nat>, s: seq<nat>, go: set<nat>)
    ensures Sum(items, a + Kept(s, go)) <= Sum(items, a + s)
    decreases |a| + |s|
  {
    if a != [] {
      SumKept(items, a[1..], s, go);
      assert (a + Kept(s, go))[1..] == a[1..] + Kept(s, go) && (a + s)[1..] == a[1..] + s;
    } else if s != [] {
      SumKept(items, [], s[1..], go);
      assert [] + s == s && [] + Kept(s, go) == Kept(s, go);
      assert [] + s[1..] == s[1..] && [] + Kept(s[1..], go) == Kept(s[1..], go);
      SumFront(items, Kept(s[1..], go), s[0]);
    } else {
      assert a + Kept(s, go) == a + s;
    }
  }

  /** Somebody owns the item and has accessed it within five seconds, or it is not free to go. */
  ghost predicate InUse(items: map<nat, Item>, w: World, id: nat) {
    (id !in w.expired && id in items && items[id].owners != {}) || id in w.shared || id in w.dirty
  }

  /** In the first sweep no item in use goes, and no more than a tenth of the share, rounded up. */
  lemma {:induction false} OnlyIdleGo(
      items: map<nat, Item>, before: seq<nat>, once: seq<nat>, share: int, w: World)
    requires SweptIdle(items, before, once, share, w)
    ensures Sum(items, once) <= Sum(items, before)
    ensures forall x :: x in before && InUse(items, w, x) ==> x in once
    ensures 10 * (|before| - |once| - 1) < share || once == before
  {
    var go := Idle(items, before, w);
    var i :| 0 <= i < |before| && once == SweptTo(before, i, go) &&
      (i == 0 || share <= 10 * (|before| - 1 - i)) && (i + 1 < |before| ==> share > 10 * (|before| - 2 - i));
    SweptIs(before, i, go);
    SumKept(items, before[..i + 1], before[i + 1..], go);
    assert before[..i + 1] + before[i + 1..] == before;
    if i + 1 == |before| { SweptNone(before, go); }
  }

  lemma {:induction false} ShrunkLeaves(s: State, once: seq<nat>, twice: seq<nat>, cache: seq<nat>, w: World)
    requires Shrunk(s, once, twice, cache, Number(s), w) && s.currentSize == Sum(s.items, s.cache)
    requires 10 * s.currentSize > 7 * s.capacity
    ensures Left(s, cache, Sum(s.items, cache), w)
  {
    ShrunkSpares(s, once, twice, cache, Number(s), w);
    OnlyIdleGo(s.items, s.cache, once, Number(s), w);
  }

  /** What a miss leaves of the state `was`, summed up to `size`, before the new item is admitted: what is gone may go;
      nothing is gone while no more than 70% of the capacity is used; within the capacity no item in use is, and at most
      a tenth of all; and otherwise the rest fits if that was possible. */
  ghost predicate Left(was: State, cache: seq<nat>, size: int, w: World) {
    && (forall x :: x in cache ==> x in was.cache)
    && (forall x :: x in was.cache && x !in cache ==> MayDiscard(w, x))
    && (10 * was.currentSize <= 7 * was.capacity ==> cache == was.cache)
    && (10 * was.currentSize > 7 * was.capacity ==> size <= was.capacity || NothingMayGo(cache, w))
    && (was.currentSize <= was.capacity ==>
          && (forall x :: x in was.cache && InUse(was.items, w, x) ==> x in cache)
          && (10 * (|was.cache| - |cache| - 1) < Number(was) || cache == was.cache))
  }
}
