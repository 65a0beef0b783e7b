/** DataCache: an LRU list of blocks with a lookup table, per-owner tables and a pool of unused items. */
module DataCache {
  import opened Wrappers
  import opened CacheState
  import opened CacheSweeps

  class DataCache {
    var capacity: nat
    var cache: seq<nat>
    var unused: seq<nat>
    var items: map<nat, Item>
    var lookup: map<Key, nat>
    var tables: map<Owner, set<nat>>
    var currentSize: int
    var unusedSize: int
    var nextId: nat

    ghost function View(): State
      reads this
    {
      State(capacity, cache, unused, items, lookup, tables, currentSize, unusedSize, nextId)
    }

    ghost predicate Valid()
      reads this
    {
      Consistent(View())
    }

    constructor (capacity: nat)
      ensures Valid() && cache == [] && this.capacity == capacity
    {
      this.capacity := capacity;
      cache, unused, items, lookup, tables := [], [], map[], map[], map[];
      currentSize, unusedSize, nextId := 0, 0, 0;
    }

    /** The loop of remove_item over the item's owners. */
    method Detach(id: nat)
      requires id in items && OwnersHaveTables(View(), id)
      modifies this`tables
      ensures tables == TablesWithout(old(tables), items[id].owners, id)
    {
      var owners := items[id].owners;
      ghost var done: set<Owner> := {};
      assert TablesWithout(tables, {}, id) == tables;
      while owners != {}
        invariant owners !! done && owners + done == items[id].owners
        invariant tables == TablesWithout(old(tables), done, id)
        decreases owners
      {
        var o :| o in owners;
        TablesWithoutOne(old(tables), done, o, id);
        tables := tables[o := tables[o] - {id}];
        owners, done := owners - {o}, done + {o};
      }
      assert done == items[id].owners;
    }

    /** remove_item. */
    method RemoveItem(id: nat)
      requires id in items && OwnersHaveTables(View(), id)
      modifies this
      ensures View() == Removed(old(View()), id)
    {
      var item := items[id];
      Detach(id);
      lookup := lookup - {item.identity};
      currentSize := currentSize - item.capacity;
      cache := Without(cache, id);
      if 10 * unusedSize > capacity {
        items := items - {id};
      } else {
        unusedSize := unusedSize + item.capacity;
        unused := [id] + unused;
      }
    }

    /** The cached items are those of `all`. */
    ghost predicate Agrees(all: map<nat, Item>)
      reads this
    {
      forall x :: x in cache ==> x in items && x in all && items[x] == all[x]
    }

    /** Remove the item at a list position other than the front. */
    method RemoveAt(i: nat, ghost all: map<nat, Item>)
      requires Valid() && Agrees(all) && 0 < i < |cache|
      modifies this
      ensures Valid() && Agrees(all) && capacity == old(capacity) && lookup.Keys <= old(lookup).Keys
      ensures cache == old(cache)[..i] + old(cache)[i + 1..]
    {
      RemovedIsConsistent(View(), cache[i]);
      WithoutAt(cache, i);
      WithoutIs(cache, cache[i]);
      TablesExist(View(), cache[i], None);
      RemoveItem(cache[i]);
    }

    /** One list position of a sweep: remove the item there if it is to go. */
    method Visit(i: nat, goes: bool, ghost before: seq<nat>, ghost go: set<nat>, ghost all: map<nat, Item>)
      requires Valid() && Agrees(all) && 0 < i < |before| && cache == SweptTo(before, i, go)
      requires goes <==> before[i] in go
      modifies this
      ensures Valid() && Agrees(all) && capacity == old(capacity) && lookup.Keys <= old(lookup).Keys
      ensures cache == SweptTo(before, i - 1, go) && currentSize == Sum(all, cache)
    {
      SweptOne(before, i, go);
      if goes {
        RemoveAt(i, all);
      }
      SumSame(items, all, cache);
    }

    method VisitIdle(i: nat, w: World, ghost before: seq<nat>, ghost all: map<nat, Item>)
      requires Valid() && Agrees(all) && 0 < i < |before| && cache == SweptTo(before, i, Idle(all, before, w))
      modifies this
      ensures Valid() && Agrees(all) && capacity == old(capacity) && lookup.Keys <= old(lookup).Keys
      ensures cache == SweptTo(before, i - 1, Idle(all, before, w))
    {
      var id := cache[i];
      var goes := (items[id].owners == {} || id in w.expired) && id !in w.dirty && id !in w.shared;
      Visit(i, goes, before, Idle(all, before, w), all);
    }

    /** How many items like the oldest one make up the size of the cache. */
    method ItemShare() returns (share: int)
      requires Valid() && cache != []
      ensures share == Number(View())
    {
      share := Share(currentSize, items[cache[|cache| - 1]].capacity);
    }

    /** The first sweep: a tenth of the items, from the tail; orphaned or expired ones go if clean and unshared. */
    method ShrinkIdle(w: World, ghost all: map<nat, Item>)
      requires Valid() && Agrees(all) && cache != []
      modifies this
      ensures Valid() && Agrees(all) && capacity == old(capacity) && lookup.Keys <= old(lookup).Keys
      ensures SweptIdle(all, old(cache), cache, Number(old(View())), w)
    {
      var share := ItemShare();
      SweptNone(cache, Idle(all, cache, w));
      ghost var stop := SweepIdle(w, share, cache, all);
      IdleEnds(all, old(cache), stop, share, w);
    }

    method SweepIdle(w: World, share: int, ghost before: seq<nat>, ghost all: map<nat, Item>) returns (ghost stop: nat)
      requires Valid() && Agrees(all) && before == cache != []
      requires cache == SweptTo(before, |before| - 1, Idle(all, before, w))
      modifies this
      ensures Valid() && Agrees(all) && capacity == old(capacity) && lookup.Keys <= old(lookup).Keys
      ensures stop < |before| && cache == SweptTo(before, stop, Idle(all, before, w))
      ensures stop == 0 || share <= 10 * (|before| - 1 - stop)
      ensures stop + 1 < |before| ==> share > 10 * (|before| - 2 - stop)
    {
      var count, i := 0, |cache| - 1;
      while share > 10 * count && i != 0
        invariant Valid() && Agrees(all) && capacity == old(capacity) && lookup.Keys <= old(lookup).Keys
        invariant 0 <= i < |before| && cache == SweptTo(before, i, Idle(all, before, w))
        invariant count == |before| - 1 - i && (count > 0 ==> share > 10 * (count - 1))
        decreases i
      {
        VisitIdle(i, w, before, all);
        i, count := i - 1, count + 1;
      }
      stop := i;
    }

    method VisitClean(i: nat, w: World, ghost before: seq<nat>, ghost all: map<nat, Item>)
      requires Valid() && Agrees(all) && 0 < i < |before| && cache == SweptTo(before, i, Clean(before, w))
      modifies this
      ensures Valid() && Agrees(all) && capacity == old(capacity) && lookup.Keys <= old(lookup).Keys
      ensures cache == SweptTo(before, i - 1, Clean(before, w)) && currentSize == Sum(all, cache)
    {
      var id := cache[i];
      var goes := id !in w.dirty && id !in w.shared;
      Visit(i, goes, before, Clean(before, w), all);
    }

    /** The second sweep: while the cache is over capacity, anything clean and unshared goes. */
    method ShrinkClean(w: World, ghost all: map<nat, Item>)
      requires Valid() && Agrees(all) && cache != []
      modifies this
      ensures Valid() && Agrees(all) && capacity == old(capacity) && lookup.Keys <= old(lookup).Keys
      ensures Trimmed(all, capacity, old(cache), cache, Clean(old(cache), w))
    {
      SweptNone(cache, Clean(cache, w));
      SumSame(items, all, cache);
      ghost var stop := SweepClean(w, cache, all);
      TrimEnds(all, capacity, old(cache), Clean(old(cache), w), stop);
    }

    method SweepClean(w: World, ghost before: seq<nat>, ghost all: map<nat, Item>) returns (ghost stop: nat)
      requires Valid() && Agrees(all) && before == cache != [] && currentSize == Sum(all, cache)
      requires cache == SweptTo(before, |before| - 1, Clean(before, w))
      modifies this
      ensures Valid() && Agrees(all) && capacity == old(capacity) && lookup.Keys <= old(lookup).Keys
      ensures stop < |before| && cache == SweptTo(before, stop, Clean(before, w))
      ensures Stops(all, capacity, before, Clean(before, w), stop)
    {
      var i := |cache| - 1;
      while capacity < currentSize && i != 0
        invariant Valid() && Agrees(all) && capacity == old(capacity) && lookup.Keys <= old(lookup).Keys
        invariant 0 <= i < |before| && cache == SweptTo(before, i, Clean(before, w)) && currentSize == Sum(all, cache)
        invariant i + 1 < |before| ==> capacity < Sum(all, SweptTo(before, i + 1, Clean(before, w)))
        decreases i
      {
        VisitClean(i, w, before, all);
        i := i - 1;
      }
      stop := i;
    }

    method VisitForced(i: nat, w: World, ghost before: seq<nat>, ghost all: map<nat, Item>)
      requires Valid() && Agrees(all) && 0 < i < |before| && cache == SweptTo(before, i, Loose(before, w))
      modifies this
      ensures Valid() && Agrees(all) && capacity == old(capacity) && lookup.Keys <= old(lookup).Keys
      ensures cache == SweptTo(before, i - 1, Loose(before, w)) && currentSize == Sum(all, cache)
    {
      var id := cache[i];
      var goes := id !in w.shared && (id !in w.dirty || id in w.flushable);
      Visit(i, goes, before, Loose(before, w), all);
    }

    /** The last sweep: while still over capacity, unshared items go, dirty ones after a successful flush. */
    method ShrinkForced(w: World, ghost all: map<nat, Item>)
      requires Valid() && Agrees(all) && cache != []
      modifies this
      ensures Valid() && Agrees(all) && capacity == old(capacity) && lookup.Keys <= old(lookup).Keys
      ensures Trimmed(all, capacity, old(cache), cache, Loose(old(cache), w))
    {
      SweptNone(cache, Loose(cache, w));
      SumSame(items, all, cache);
      ghost var stop := SweepForced(w, cache, all);
      TrimEnds(all, capacity, old(cache), Loose(old(cache), w), stop);
    }

    method SweepForced(w: World, ghost before: seq<nat>, ghost all: map<nat, Item>) returns (ghost stop: nat)
      requires Valid() && Agrees(all) && before == cache != [] && currentSize == Sum(all, cache)
      requires cache == SweptTo(before, |before| - 1, Loose(before, w))
      modifies this
      ensures Valid() && Agrees(all) && capacity == old(capacity) && lookup.Keys <= old(lookup).Keys
      ensures stop < |before| && cache == SweptTo(before, stop, Loose(before, w))
      ensures Stops(all, capacity, before, Loose(before, w), stop)
    {
      var i := |cache| - 1;
      while capacity < currentSize && i != 0
        invariant Valid() && Agrees(all) && capacity == old(capacity) && lookup.Keys <= old(lookup).Keys
        invariant 0 <= i < |before| && cache == SweptTo(before, i, Loose(before, w)) && currentSize == Sum(all, cache)
        invariant i + 1 < |before| ==> capacity < Sum(all, SweptTo(before, i + 1, Loose(before, w)))
        decreases i
      {
        VisitForced(i, w, before, all);
        i := i - 1;
      }
      stop := i;
    }

    /** try_shrink. The sweeps discard only unshared blocks without unflushed data, never the most recent one, the
        oldest first and no more than needed, and stop with the cache over capacity only if nothing else may go. */
    method TryShrink(w: World) returns (ghost once: seq<nat>, ghost twice: seq<nat>)
      requires Valid() && cache != []
      modifies this
      ensures Valid() && capacity == old(capacity) && lookup.Keys <= old(lookup).Keys
      ensures Shrunk(old(View()), once, twice, cache, Number(old(View())), w)
      ensures currentSize == Sum(old(items), cache)
      ensures Spares(old(cache), cache, w) && (currentSize <= capacity || NothingMayGo(cache, w))
    {
      ghost var was := View();
      ShrinkIdle(w, was.items);
      once, twice := cache, cache;
      IdleSpares(was.items, was.cache, once, Number(was), w);
      SumSame(items, was.items, cache);
      if capacity < currentSize {
        ShrinkClean(w, was.items);
        twice := cache;
        TrimmedSpares(was.items, capacity, once, twice, Clean(once, w), w);
        ShrinkForced(w, was.items);
        SumSame(items, was.items, cache);
      }
      ShrunkSpares(was, once, twice, cache, Number(was), w);
    }

    method MakeRoom(w: World)
      requires Valid()
      modifies this
      ensures Valid() && capacity == old(capacity) && lookup.Keys <= old(lookup).Keys
      ensures Left(old(View()), cache, currentSize, w)
    {
      if 10 * currentSize > 7 * capacity {
        ghost var was := View();
        var once, twice := TryShrink(w);
        ShrunkLeaves(was, once, twice, cache, w);
      }
    }

    /** getDataKey. A hit returns the cached item and evicts nothing; a miss admits one new item at the front of what
        MakeRoom has left. */
    method GetDataKey(owner: Owner, key: Key, size: nat, w: World) returns (id: nat, ghost left: seq<nat>)
      requires Valid() && size > 0
      modifies this
      ensures Valid() && capacity == old(capacity)
      ensures key in lookup && lookup[key] == id && owner in items[id].owners
      ensures key in old(lookup) ==> id == old(lookup)[key] && cache == [id] + Without(old(cache), id)
      ensures key in old(lookup) ==> forall x :: x in cache <==> x in old(cache)
      ensures key !in old(lookup) ==> items[id] == Item({owner}, key, size) && cache == [id] + left && id !in left
      ensures key !in old(lookup) ==> Left(old(View()), left, currentSize - size, w)
    {
      if key in lookup {
        id, left := lookup[key], cache;
        HitIsConsistent(View(), owner, id);
        cache := [id] + Without(cache, id);
        tables := TableWith(tables, owner, id);
        items := items[id := items[id].(owners := items[id].owners + {owner})];
        return;
      }
      MakeRoom(w);
      left := cache;
      AdmittedIsConsistent(View(), owner, key, size);
      id := Admit(owner, key, size);
    }

    method Admit(owner: Owner, key: Key, size: nat) returns (id: nat)
      requires Valid()
      modifies this
      ensures View() == Admitted(old(View()), owner, key, size) && id == cache[0]
    {
      if unused != [] {
        id := unused[0];
        unusedSize := unusedSize - items[id].capacity;
        items := items[id := Item({owner}, key, size)];
        unused := unused[1..];
      } else {
        id := nextId;
        nextId := nextId + 1;
        items := items[id := Item({owner}, key, size)];
      }
      cache := [id] + cache;
      currentSize := currentSize + size;
      lookup := lookup[key := id];
      tables := TableWith(tables, owner, id);
    }

    /** One item of a dropped owner. */
    method DropItem(owner: Owner, id: nat, force: bool, ghost todo: set<nat>, ghost before: State, ghost mine: set<nat>)
      requires Dropping(View(), owner, todo) && id in todo && todo <= mine
      requires Remains(before, View(), owner, Gone(force, mine, todo))
      modifies this
      ensures capacity == old(capacity) && Dropping(View(), owner, todo - {id})
      ensures Remains(before, View(), owner, Gone(force, mine, todo - {id}))
    {
      DisownedDrops(View(), owner, todo, id);
      StepRemains(before, View(), owner, Gone(force, mine, todo), id);
      items := items[id := items[id].(owners := items[id].owners - {owner})];
      assert View() == Disowned(old(View()), owner, id);
      if force {
        assert Gone(force, mine, todo) + {id} == Gone(force, mine, todo - {id});
        RemovedDrops(View(), owner, todo - {id}, id);
        TablesExist(View(), id, Some(owner));
        RemoveItem(id);
      }
    }

    /** The loop over the owner's table. */
    method DropItems(owner: Owner, force: bool)
      requires owner in tables && Dropping(View(), owner, tables[owner])
      modifies this
      ensures capacity == old(capacity) && Dropping(View(), owner, {})
      ensures Remains(old(View()), View(), owner, if force then old(tables)[owner] else {})
    {
      var todo := tables[owner];
      ghost var mine, was, cap := todo, View(), capacity;
      assert Gone(force, mine, todo) == {};
      while todo != {}
        invariant capacity == cap && todo <= mine && Dropping(View(), owner, todo)
        invariant Remains(was, View(), owner, Gone(force, mine, todo))
        decreases todo
      {
        var id :| id in todo;
        DropItem(owner, id, force, todo, was, mine);
        todo := todo - {id};
      }
      assert Gone(force, mine, {}) == if force then mine else {};
    }

    /** drop: no item knows the owner any more, no other ownership changes, and exactly the owner's items leave the
        cache if force is set, nothing otherwise. */
    method Drop(owner: Owner, force: bool)
      requires Valid()
      modifies this
      ensures Valid() && capacity == old(capacity) && owner !in tables
      ensures Remains(old(View()), View(), owner, if force && owner in old(tables) then old(tables)[owner] else {})
      ensures forall id :: id in cache ==> owner !in items[id].owners
    {
      ghost var was, gone := View(), if force && owner in tables then tables[owner] else {};
      DropStarts(was, owner);
      if owner in tables {
        DropItems(owner, force);
      }
      DropEnds(was, View(), owner, gone);
      tables := tables - {owner};
    }
  }
}
