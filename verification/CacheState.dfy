/** The bookkeeping of the block cache, as values: what each step does to it and what every step keeps.

A list item is named by a number that stays with it while it moves between lists, as a list iterator does. */
module CacheState {
  import opened Wrappers
  import opened Sequences

  type Key = string
  type Owner = nat

  /** One cached block: who uses it, under which identity, and how large it may get. */
  datatype Item = Item(owners: set<Owner>, identity: Key, capacity: nat)

  datatype State = State(
    capacity: nat,
    cache: seq<nat>,
    unused: seq<nat>,
    items: map<nat, Item>,
    lookup: map<Key, nat>,
    tables: map<Owner, set<nat>>,
    currentSize: int,
    unusedSize: int,
    nextId: nat)

  // ----- lists

  function Without(s: seq<nat>, id: nat): seq<nat> {
    if s == [] then [] else if s[0] == id then s[1..] else [s[0]] + Without(s[1..], id)
  }

  lemma {:induction false} WithoutIs(s: seq<nat>, id: nat)
    requires Distinct(s)
    ensures Distinct(Without(s, id)) && forall x :: x in Without(s, id) <==> x in s && x != id
    ensures |Without(s, id)| == |s| - if id in s then 1 else 0
    decreases |s|
  {
    if s != [] {
      assert s == [s[0]] + s[1..];
      WithoutIs(s[1..], id);
      assert s[0] !in s[1..];
      var w := Without(s[1..], id);
      forall i, j | 0 <= i < j < |[s[0]] + w| ensures ([s[0]] + w)[i] != ([s[0]] + w)[j] {
        assert ([s[0]] + w)[j] == w[j - 1] && w[j - 1] in s[1..];
      }
    }
  }

  /** Removing the element at i leaves everything before it in place. */
  lemma {:induction false} WithoutAt(s: seq<nat>, i: nat)
    requires Distinct(s) && i < |s|
    ensures Without(s, s[i]) == s[..i] + s[i + 1..]
    decreases |s|
  {
    if i > 0 {
      WithoutAt(s[1..], i - 1);
      assert s[..i] == [s[0]] + s[1..][..i - 1] && s[1..][i..] == s[i + 1..];
    } else {
      assert s[..0] + s[1..] == s[1..];
    }
  }

  function SizeOf(items: map<nat, Item>, id: nat): nat {
    if id in items then items[id].capacity else 0
  }

  /** Summed capacities of a list. */
  function Sum(items: map<nat, Item>, s: seq<nat>): nat {
    if s == [] then 0 else SizeOf(items, s[0]) + Sum(items, s[1..])
  }

  lemma {:induction false} SumWithout(items: map<nat, Item>, s: seq<nat>, id: nat)
    requires id in s
    ensures Sum(items, Without(s, id)) == Sum(items, s) - SizeOf(items, id)
    decreases |s|
  {
    if s[0] != id {
      assert s == [s[0]] + s[1..];
      SumWithout(items, s[1..], id);
      assert ([s[0]] + Without(s[1..], id))[1..] == Without(s[1..], id);
    }
  }

  lemma {:induction false} SumSame(items: map<nat, Item>, other: map<nat, Item>, s: seq<nat>)
    requires forall x :: x in s ==> SizeOf(items, x) == SizeOf(other, x)
    ensures Sum(items, s) == Sum(other, s)
    decreases |s|
  {
    if s != [] { SumSame(items, other, s[1..]); }
  }

  lemma {:induction false} SumFront(items: map<nat, Item>, s: seq<nat>, id: nat)
    ensures Sum(items, [id] + s) == SizeOf(items, id) + Sum(items, s)
  {
    assert ([id] + s)[1..] == s;
  }

  // ----- the invariant

  ghost predicate Placed(s: State) {
    && Distinct(s.cache) && Distinct(s.unused)
    && (forall id :: id in s.cache ==> id in s.items && id !in s.unused)
    && (forall id :: id in s.unused ==> id in s.items)
    && (forall id :: id in s.items ==> id < s.nextId && s.items[id].capacity > 0)
  }

  ghost predicate Counted(s: State) {
    s.currentSize == Sum(s.items, s.cache) && s.unusedSize == Sum(s.items, s.unused)
  }

  /** Exactly one lookup entry per cached item, under its identity. */
  ghost predicate Indexed(s: State)
    requires Placed(s)
  {
    && (forall k :: k in s.lookup ==> s.lookup[k] in s.cache && s.items[s.lookup[k]].identity == k)
    && (forall id :: id in s.cache ==> s.items[id].identity in s.lookup && s.lookup[s.items[id].identity] == id)
  }

  ghost predicate Owns(s: State, o: Owner, id: nat) { o in s.tables && id in s.tables[o] }

  /** Item owners and owner tables are inverse to each other, for every owner but `except`. */
  ghost predicate Owned(s: State, except: Option<Owner>)
    requires Placed(s)
  {
    && (forall o: Owner, id :: Owns(s, o, id) && except != Some(o) ==> id in s.cache)
    && (forall o: Owner, id :: id in s.cache && except != Some(o) ==> (Owns(s, o, id) <==> o in s.items[id].owners))
  }

  ghost predicate Consistent(s: State) {
    Placed(s) && Counted(s) && Indexed(s) && Owned(s, None)
  }

  // ----- removing an item

  function TablesWithout(tables: map<Owner, set<nat>>, owners: set<Owner>, id: nat): map<Owner, set<nat>> {
    map o | o in tables :: if o in owners then tables[o] - {id} else tables[o]
  }

  lemma {:induction false} TablesWithoutOne(tables: map<Owner, set<nat>>, owners: set<Owner>, o: Owner, id: nat)
    requires o in tables && o !in owners
    ensures TablesWithout(tables, owners + {o}, id) ==
      TablesWithout(tables, owners, id)[o := TablesWithout(tables, owners, id)[o] - {id}]
  {
  }

  /** Every owner of an item has a table, so looking it up creates none. */
  ghost predicate OwnersHaveTables(s: State, id: nat)
    requires id in s.items
  {
    forall o :: o in s.items[id].owners ==> o in s.tables
  }

  /** DataCache::remove_item: forget the item, and keep it for reuse unless too many unused ones are around. */
  function Removed(s: State, id: nat): State
    requires id in s.items
  {
    var item := s.items[id];
    var t := s.(tables := TablesWithout(s.tables, item.owners, id), lookup := s.lookup - {item.identity},
                currentSize := s.currentSize - item.capacity, cache := Without(s.cache, id));
    if 10 * s.unusedSize > s.capacity then t.(items := s.items - {id})
    else t.(unusedSize := s.unusedSize + item.capacity, unused := [id] + s.unused)
  }

  lemma {:induction false} TablesExist(s: State, id: nat, except: Option<Owner>)
    requires Placed(s) && Owned(s, except) && id in s.cache
    requires except.Some? ==> except.value !in s.items[id].owners
    ensures OwnersHaveTables(s, id)
  {
    forall o | o in s.items[id].owners ensures o in s.tables { assert Owns(s, o, id); }
  }

  lemma {:induction false} RemovedIsPlaced(s: State, id: nat)
    requires Placed(s) && Counted(s) && id in s.cache
    ensures Placed(Removed(s, id)) && Counted(Removed(s, id))
  {
    var t := Removed(s, id);
    WithoutIs(s.cache, id);
    SumWithout(s.items, s.cache, id);
    SumFront(s.items, s.unused, id);
    SumSame(s.items, t.items, t.cache);
    SumSame(s.items, t.items, t.unused);
  }

  lemma {:induction false} RemovedIsIndexed(s: State, id: nat)
    requires Placed(s) && Counted(s) && Indexed(s) && id in s.cache && Placed(Removed(s, id))
    ensures Indexed(Removed(s, id))
  {
    WithoutIs(s.cache, id);
  }

  lemma {:induction false} RemovedIsOwned(s: State, id: nat, except: Option<Owner>)
    requires Placed(s) && Owned(s, except) && id in s.cache && Placed(Removed(s, id))
    ensures Owned(Removed(s, id), except)
  {
    WithoutIs(s.cache, id);
    var t := Removed(s, id);
    forall o: Owner, x | except != Some(o) ensures Owns(t, o, x) <==> Owns(s, o, x) && x != id {
      assert Owns(s, o, id) <==> o in s.items[id].owners;
    }
  }

  /** The pool of unused items takes a removed one in exactly as long as it holds no more than a tenth of the capacity,
      so it never exceeds that by more than one item. */
  lemma {:induction false} PoolIsBounded(s: State, id: nat, largest: nat)
    requires Consistent(s) && id in s.cache && forall x :: x in s.items ==> s.items[x].capacity <= largest
    ensures var t := Removed(s, id);
      && (id in t.unused <==> 10 * s.unusedSize <= s.capacity) && (id in t.items <==> id in t.unused)
      && (10 * s.unusedSize <= s.capacity + 10 * largest ==> 10 * t.unusedSize <= t.capacity + 10 * largest)
  {
    WithoutIs(s.cache, id);
  }

  lemma {:induction false} RemovedIsConsistent(s: State, id: nat)
    requires Consistent(s) && id in s.cache
    ensures Consistent(Removed(s, id)) && Removed(s, id).cache == Without(s.cache, id)
  {
    RemovedIsPlaced(s, id);
    RemovedIsIndexed(s, id);
    RemovedIsOwned(s, id, None);
  }

  // ----- serving a request

  function TableWith(tables: map<Owner, set<nat>>, o: Owner, id: nat): map<Owner, set<nat>> {
    tables[o := (if o in tables then tables[o] else {}) + {id}]
  }

  /** A hit: move the item to the front and note the owner on both sides. */
  function Hit(s: State, o: Owner, id: nat): State
    requires id in s.items
  {
    s.(cache := [id] + Without(s.cache, id), tables := TableWith(s.tables, o, id),
       items := s.items[id := s.items[id].(owners := s.items[id].owners + {o})])
  }

  lemma {:induction false} HitIsPlaced(s: State, o: Owner, id: nat)
    requires Placed(s) && Counted(s) && id in s.cache
    ensures Placed(Hit(s, o, id)) && Counted(Hit(s, o, id))
    ensures forall x :: x in Hit(s, o, id).cache <==> x in s.cache
  {
    var t := Hit(s, o, id);
    WithoutIs(s.cache, id);
    SumWithout(s.items, s.cache, id);
    SumFront(s.items, Without(s.cache, id), id);
    SumSame(s.items, t.items, t.cache);
    SumSame(s.items, t.items, t.unused);
  }

  lemma {:induction false} HitIsOwned(s: State, o: Owner, id: nat)
    requires Placed(s) && Owned(s, None) && id in s.cache && Placed(Hit(s, o, id))
    requires forall x :: x in Hit(s, o, id).cache <==> x in s.cache
    ensures Owned(Hit(s, o, id), None)
  {
    var t := Hit(s, o, id);
    forall p: Owner, x ensures Owns(t, p, x) <==> Owns(s, p, x) || (p == o && x == id) { }
    forall p: Owner, x | x in t.cache ensures Owns(t, p, x) <==> p in t.items[x].owners {
      assert Owns(s, p, x) <==> p in s.items[x].owners;
    }
  }

  lemma {:induction false} HitIsIndexed(s: State, o: Owner, id: nat)
    requires Placed(s) && Indexed(s) && id in s.cache && Placed(Hit(s, o, id))
    requires forall x :: x in Hit(s, o, id).cache <==> x in s.cache
    ensures Indexed(Hit(s, o, id))
  {
    var t := Hit(s, o, id);
    assert forall x :: x in s.cache ==> t.items[x].identity == s.items[x].identity;
  }

  lemma {:induction false} HitIsConsistent(s: State, o: Owner, id: nat)
    requires Consistent(s) && id in s.cache
    ensures Consistent(Hit(s, o, id)) && forall x :: x in Hit(s, o, id).cache <==> x in s.cache
  {
    HitIsPlaced(s, o, id);
    HitIsIndexed(s, o, id);
    HitIsOwned(s, o, id);
  }

  /** A miss: an unused item is assigned anew if there is one, otherwise an item is created. */
  function Admitted(s: State, o: Owner, key: Key, size: nat): State
    requires forall id :: id in s.unused ==> id in s.items
  {
    var reuse := s.unused != [];
    var id := if reuse then s.unused[0] else s.nextId;
    s.(unusedSize := s.unusedSize - (if reuse then s.items[id].capacity else 0),
       unused := if reuse then s.unused[1..] else s.unused,
       nextId := if reuse then s.nextId else s.nextId + 1,
       items := s.items[id := Item({o}, key, size)],
       cache := [id] + s.cache,
       currentSize := s.currentSize + size,
       lookup := s.lookup[key := id],
       tables := TableWith(s.tables, o, id))
  }

  lemma {:induction false} AdmittedIsConsistent(s: State, o: Owner, key: Key, size: nat)
    requires Consistent(s) && key !in s.lookup && size > 0
    ensures Consistent(Admitted(s, o, key, size))
    ensures var t := Admitted(s, o, key, size); t.cache[1..] == s.cache && t.cache[0] !in s.cache
    ensures s.unused != [] ==> Admitted(s, o, key, size).items.Keys == s.items.Keys
  {
    AdmittedIsPlaced(s, o, key, size);
    AdmittedIsIndexed(s, o, key, size);
    AdmittedIsOwned(s, o, key, size);
  }

  lemma {:induction false} AdmittedIsIndexed(s: State, o: Owner, key: Key, size: nat)
    requires Placed(s) && Indexed(s) && key !in s.lookup && Placed(Admitted(s, o, key, size))
    ensures Indexed(Admitted(s, o, key, size))
  {
    var t := Admitted(s, o, key, size);
    var id := t.cache[0];
    assert t.cache == [id] + s.cache && id !in s.cache;
    assert forall x :: x in s.cache ==> t.items[x] == s.items[x];
  }

  lemma {:induction false} AdmittedIsOwned(s: State, o: Owner, key: Key, size: nat)
    requires Placed(s) && Owned(s, None) && Placed(Admitted(s, o, key, size))
    ensures Owned(Admitted(s, o, key, size), None)
  {
    var t := Admitted(s, o, key, size);
    var id := t.cache[0];
    assert t.cache == [id] + s.cache && id !in s.cache;
    forall p: Owner, x ensures Owns(t, p, x) <==> Owns(s, p, x) || (p == o && x == id) { }
    forall p: Owner ensures !Owns(s, p, id) { }
  }

  lemma {:induction false} AdmittedIsPlaced(s: State, o: Owner, key: Key, size: nat)
    requires Placed(s) && Counted(s) && size > 0
    ensures Placed(Admitted(s, o, key, size)) && Counted(Admitted(s, o, key, size))
  {
    var t := Admitted(s, o, key, size);
    var id := t.cache[0];
    assert id !in s.cache;
    assert t.cache == [id] + s.cache;
    SumFront(t.items, s.cache, id);
    SumSame(s.items, t.items, s.cache);
    if s.unused != [] {
      assert s.unused == [id] + s.unused[1..];
      assert id !in s.unused[1..];
    }
    SumSame(s.items, t.items, t.unused);
  }

  // ----- dropping an owner

  function Disowned(s: State, o: Owner, id: nat): State
    requires id in s.items
  {
    s.(items := s.items[id := s.items[id].(owners := s.items[id].owners - {o})])
  }

  lemma {:induction false} DisownedKeeps(s: State, o: Owner, id: nat)
    requires Placed(s) && Counted(s) && Indexed(s) && Owned(s, Some(o)) && id in s.cache
    ensures var t := Disowned(s, o, id); Placed(t) && Counted(t) && Indexed(t) && Owned(t, Some(o))
  {
    var t := Disowned(s, o, id);
    SumSame(s.items, t.items, s.cache);
    SumSame(s.items, t.items, s.unused);
    forall p: Owner, x ensures Owns(t, p, x) <==> Owns(s, p, x) { }
  }

  /** The loop of DataCache::drop, with `todo` of the owner's items still to visit. */
  ghost predicate Dropping(s: State, o: Owner, todo: set<nat>) {
    && Placed(s) && Counted(s) && Indexed(s) && Owned(s, Some(o))
    && (forall id :: id in todo ==> id in s.cache)
    && (forall id :: id in s.cache && o in s.items[id].owners ==> id in todo)
  }

  /** What is left of the list `before`, where every item has the owners it had, without the dropped one. */
  ghost predicate Remains(before: State, s: State, o: Owner, gone: set<nat>) {
    && (forall id :: id in s.cache <==> id in before.cache && id !in gone)
    && (forall id :: id in s.cache ==>
       id in s.items && id in before.items && s.items[id].owners - {o} == before.items[id].owners - {o})
  }

  /** Of the items `mine`, with `todo` still to visit, those that have left the cache. */
  ghost function Gone(force: bool, mine: set<nat>, todo: set<nat>): set<nat> {
    if force then mine - todo else {}
  }

  lemma {:induction false} DropStarts(s: State, o: Owner)
    requires Consistent(s)
    ensures Dropping(s, o, if o in s.tables then s.tables[o] else {}) && Remains(s, s, o, {})
  {
    var mine := if o in s.tables then s.tables[o] else {};
    forall id ensures id in mine <==> Owns(s, o, id) { }
  }

  lemma {:induction false} DisownedDrops(s: State, o: Owner, todo: set<nat>, id: nat)
    requires Dropping(s, o, todo) && id in todo
    ensures Dropping(Disowned(s, o, id), o, todo - {id})
  {
    DisownedKeeps(s, o, id);
  }

  lemma {:induction false} RemovedDrops(s: State, o: Owner, todo: set<nat>, id: nat)
    requires Dropping(s, o, todo) && id in s.cache && id !in todo
    ensures Dropping(Removed(s, id), o, todo)
  {
    WithoutIs(s.cache, id);
    RemovedIsPlaced(s, id);
    RemovedIsIndexed(s, id);
    RemovedIsOwned(s, id, Some(o));
  }

  lemma {:induction false} StepRemains(before: State, s: State, o: Owner, gone: set<nat>, id: nat)
    requires Remains(before, s, o, gone) && Distinct(s.cache) && id in s.items
    ensures Remains(before, Disowned(s, o, id), o, gone)
    ensures Remains(before, Removed(Disowned(s, o, id), id), o, gone + {id})
  {
    WithoutIs(s.cache, id);
  }

  function Forgotten(s: State, o: Owner): State {
    s.(tables := s.tables - {o})
  }

  lemma {:induction false} DropEnds(before: State, s: State, o: Owner, gone: set<nat>)
    requires Dropping(s, o, {}) && Remains(before, s, o, gone)
    ensures Consistent(Forgotten(s, o)) && Remains(before, Forgotten(s, o), o, gone)
    ensures forall id :: id in s.cache ==> o !in s.items[id].owners
  {
    ForgottenIsConsistent(s, o);
  }

  lemma {:induction false} ForgottenIsConsistent(s: State, o: Owner)
    requires Placed(s) && Counted(s) && Indexed(s) && Owned(s, Some(o))
    requires forall id :: id in s.cache ==> o !in s.items[id].owners
    ensures Consistent(Forgotten(s, o))
  {
    var t := Forgotten(s, o);
    forall p: Owner, x ensures Owns(t, p, x) <==> Owns(s, p, x) && p != o { }
  }
}
