/** The unread counters of `Authorizer` (src/Authorizer.hpp) as an object; every method is
    a region under a mutex, but for the last two. */
module UnreadCache {
  import opened Wrappers
  import opened Unread

  class Authorizer {
    var cache: seq<Entry>
    /** The table `relation`: the unread count of each pair of friends. */
    var db: map<Pair, nat>
    var writing: Option<nat>

    ghost function State(): System
      reads this
    {
      System(cache, db, writing)
    }

    constructor (db: map<Pair, nat>)
      ensures State() == System([], db, None) && Valid(State())
    {
      this.db, cache, writing := db, [], None;
    }

    method FindEntry(key: Pair) returns (i: nat)
      ensures i == Find(cache, key)
    {
      i := 0;
      while i < |cache| && cache[i].key != key
        invariant i <= |cache| && Find(cache, key) == i + Find(cache[i..], key)
      {
        assert cache[i..][1..] == cache[i + 1..];
        i := i + 1;
      }
    }

    method AddOneUnread(key: Pair)
      requires writing.None?
      modifies this`cache
      ensures State() == Step(old(State()), Add(key))
    {
      var i := FindEntry(key);
      if i < |cache| {
        cache := cache[i := Entry(key, cache[i].count + 1)];
      } else {
        cache := cache + [Entry(key, 1)];
      }
    }

    /** The first region of `clear_unread`. */
    method ClearInCache(key: Pair)
      requires writing.None?
      modifies this`cache
      ensures State() == Step(old(State()), ClearCached(key))
    {
      var i := FindEntry(key);
      if i < |cache| {
        cache := cache[i := Entry(key, 0)];
      }
    }

    /** The second one. */
    method ClearInDatabase(key: Pair)
      modifies this`db
      ensures State() == Step(old(State()), ClearRow(key))
    {
      if key in db {
        db := db[key := 0];
      }
    }

    method LockForWriting()
      requires writing.None?
      modifies this`writing
      ensures State() == Step(old(State()), StartWriting)
    {
      writing := Some(0);
    }

    method WriteEntry()
      requires writing.Some? && writing.value < |cache|
      modifies this`db, this`writing
      ensures State() == Step(old(State()), WriteRow)
    {
      var item := cache[writing.value];
      if item.key in db {
        db := db[item.key := db[item.key] + item.count];
      }
      writing := Some(writing.value + 1);
    }

    method UnlockAfterWriting()
      requires writing == Some(|cache|)
      modifies this`cache, this`writing
      ensures State() == Step(old(State()), FinishWriting)
    {
      cache, writing := [], None;
    }

    /** The count that `get_friend_list` adds up. */
    method UnreadOf(key: Pair) returns (unread: nat)
      requires writing.None? && key in db
      ensures unread == Displayed(State(), key)
    {
      unread := db[key];
      for it := 0 to |cache|
        invariant Find(cache, key) >= it && unread == db[key]
      {
        if cache[it].key == key {
          return unread + cache[it].count;
        }
      }
    }

    /** `clear_unread` when nothing comes between its regions: the counter is zero. */
    method ClearUnread(key: Pair)
      requires writing.None? && Valid(State()) && key in db
      modifies this`cache, this`db
      ensures Valid(State()) && writing.None? && db.Keys == old(db.Keys)
      ensures Displayed(State(), key) == 0
      ensures forall other :: other in db && other != key ==>
                Displayed(State(), other) == old(Displayed(State(), other))
    {
      ghost var s := State();
      ClearInCache(key);
      ghost var mid := State();
      ClearInDatabase(key);
      forall other | other in db
        ensures Displayed(State(), other) == if other == key then 0 else Displayed(s, other)
      {
        ClearCachedClears(s, key, other);
        PendingIsFound(s.cache, 0, other);
        PendingIsFound(mid.cache, 0, other);
      }
      ClearCachedClears(s, key, key);
    }

    ghost predicate KeepsValues(s: System, t: System) {
      && From(s) <= |s.cache| && From(t) <= |t.cache| && t.db.Keys == s.db.Keys
      && forall key :: key in t.db ==> Value(t, key) == Value(s, key)
    }

    /** An update keeps the value of every counter. */
    method WriteEntryKeepingValues()
      requires Valid(State()) && writing.Some? && writing.value < |cache|
      modifies this`db, this`writing
      ensures Valid(State()) && State() == Step(old(State()), WriteRow)
      ensures KeepsValues(old(State()), State())
    {
      ghost var s := State();
      WriteEntry();
      forall key | key in db ensures key in s.db && Value(State(), key) == Value(s, key) {
        WriteRowMoves(s, key);
      }
    }

    /** One round of `write_cache_to_database` when nothing comes between: no counter
        changes, and the cache is empty. */
    method WriteCacheToDatabase()
      requires writing.None? && Valid(State())
      modifies this`cache, this`db, this`writing
      ensures cache == [] && writing.None? && db.Keys == old(db.Keys)
      ensures forall key :: key in db ==> db[key] == old(Displayed(State(), key))
    {
      ghost var s := State();
      LockForWriting();
      while writing.value < |cache|
        invariant writing.Some? && Valid(State()) && KeepsValues(s, State())
        decreases |cache| - writing.value
      {
        WriteEntryKeepingValues();
      }
      ghost var t := State();
      UnlockAfterWriting();
      forall key | key in db ensures db[key] == Displayed(s, key) {
        DisplayedIsValue(s, key);
        assert Value(t, key) == db[key];
      }
    }
  }
}
