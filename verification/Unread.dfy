/** The unread counters of `Authorizer` (src/Authorizer.hpp): counts are cached under one
    mutex and written to the database now and then. A region under a mutex is one step;
    the background writer holds the mutex of the cache over many updates of the database,
    each of them a step. */
module Unread {
  import opened Wrappers

  datatype Pair = Pair(user: int, friend: int)

  datatype Entry = Entry(key: Pair, count: nat)

  /** `writing` is how many entries the writer has added to the database so far, while it
      is at work. */
  datatype System = System(cache: seq<Entry>, db: map<Pair, nat>, writing: Option<nat>)

  datatype Action =
    | Add(key: Pair)
    | ClearCached(key: Pair)
    | ClearRow(key: Pair)
    | StartWriting
    | WriteRow
    | FinishWriting

  // The cache.

  /** The first entry of the pair. */
  function Find(cache: seq<Entry>, key: Pair): (i: nat)
    ensures i <= |cache| && (i < |cache| ==> cache[i].key == key)
    ensures forall j :: 0 <= j < i ==> cache[j].key != key
  {
    if cache == [] || cache[0].key == key then 0 else 1 + Find(cache[1..], key)
  }

  predicate AtMostOneEach(cache: seq<Entry>) {
    forall i, j :: 0 <= i < j < |cache| ==> cache[i].key != cache[j].key
  }

  function CountOne(cache: seq<Entry>, key: Pair): (r: seq<Entry>) {
    var i := Find(cache, key);
    if i < |cache| then cache[i := Entry(key, cache[i].count + 1)] else cache + [Entry(key, 1)]
  }

  function CountNone(cache: seq<Entry>, key: Pair): (r: seq<Entry>)
    ensures |r| == |cache|
  {
    var i := Find(cache, key);
    if i < |cache| then cache[i := Entry(key, 0)] else cache
  }

  /** `UPDATE relation SET unread=unread+n`: nothing happens without such a row. */
  function AddToRow(db: map<Pair, nat>, key: Pair, n: nat): map<Pair, nat> {
    if key in db then db[key := db[key] + n] else db
  }

  function ClearInRow(db: map<Pair, nat>, key: Pair): map<Pair, nat> {
    if key in db then db[key := 0] else db
  }

  // The steps.

  /** Whether the mutexes let the step happen. */
  predicate IsEnabled(s: System, a: Action) {
    match a
    case Add(_) => s.writing.None?
    case ClearCached(_) => s.writing.None?
    case ClearRow(_) => true
    case StartWriting => s.writing.None?
    case WriteRow => s.writing.Some? && s.writing.value < |s.cache|
    case FinishWriting => s.writing == Some(|s.cache|)
  }

  function Step(s: System, a: Action): System
    requires IsEnabled(s, a)
  {
    match a
    case Add(key) => s.(cache := CountOne(s.cache, key))
    case ClearCached(key) => s.(cache := CountNone(s.cache, key))
    case ClearRow(key) => s.(db := ClearInRow(s.db, key))
    case StartWriting => s.(writing := Some(0))
    case WriteRow =>
      var e := s.cache[s.writing.value];
      s.(db := AddToRow(s.db, e.key, e.count), writing := Some(s.writing.value + 1))
    case FinishWriting => s.(cache := [], writing := None)
  }

  /** What `get_friend_list` shows for a friend; it holds both mutexes. */
  function Displayed(s: System, key: Pair): nat
    requires key in s.db
  {
    var i := Find(s.cache, key);
    s.db[key] + if i < |s.cache| then s.cache[i].count else 0
  }

  // The value of a counter.

  /** What entries from `from` on hold for the pair. */
  function Pending(cache: seq<Entry>, from: nat, key: Pair): nat
    requires from <= |cache|
    decreases |cache| - from
  {
    if from == |cache| then 0
    else Pending(cache, from + 1, key) + if cache[from].key == key then cache[from].count else 0
  }

  function From(s: System): nat {
    if s.writing.Some? then s.writing.value else 0
  }

  ghost predicate Valid(s: System) {
    AtMostOneEach(s.cache) && From(s) <= |s.cache|
  }

  /** The count in the database and what is still to be added to it. */
  function Value(s: System, key: Pair): nat
    requires key in s.db && From(s) <= |s.cache|
  {
    s.db[key] + Pending(s.cache, From(s), key)
  }

  /** With one entry for each pair, the pending count is that of the entry found. */
  lemma {:induction false} PendingIsFound(cache: seq<Entry>, from: nat, key: Pair)
    requires AtMostOneEach(cache) && from <= |cache|
    ensures var i := Find(cache, key);
      Pending(cache, from, key) == if from <= i < |cache| then cache[i].count else 0
    decreases |cache| - from
  {
    var i := Find(cache, key);
    if from < |cache| {
      PendingIsFound(cache, from + 1, key);
    }
  }

  lemma DisplayedIsValue(s: System, key: Pair)
    requires Valid(s) && key in s.db && s.writing.None?
    ensures Displayed(s, key) == Value(s, key)
  {
    PendingIsFound(s.cache, 0, key);
  }

  lemma FindUpdated(cache: seq<Entry>, i: nat, e: Entry, key: Pair)
    requires i < |cache| && e.key == cache[i].key
    ensures Find(cache[i := e], key) == Find(cache, key)
  {
    var j, k := Find(cache, key), Find(cache[i := e], key);
    assert forall l :: 0 <= l < |cache| ==> cache[i := e][l].key == cache[l].key;
  }

  lemma FindAppended(cache: seq<Entry>, e: Entry, key: Pair)
    requires Find(cache, e.key) == |cache|
    ensures Find(cache + [e], key)
         == if key == e.key then |cache| else if Find(cache, key) < |cache| then Find(cache, key) else |cache| + 1
  {
    var j, k := Find(cache, key), Find(cache + [e], key);
    assert forall l :: 0 <= l < |cache| ==> (cache + [e])[l] == cache[l];
    assert (cache + [e])[|cache|] == e;
    if j < |cache| { assert (cache + [e])[j].key == key; }
  }

  lemma AddCounts(s: System, added: Pair, key: Pair)
    requires Valid(s) && key in s.db && s.writing.None?
    ensures Valid(Step(s, Add(added)))
    ensures Value(Step(s, Add(added)), key) == Value(s, key) + if added == key then 1 else 0
  {
    var i := Find(s.cache, added);
    var t := Step(s, Add(added));
    if i < |s.cache| {
      FindUpdated(s.cache, i, Entry(added, s.cache[i].count + 1), key);
    } else {
      FindAppended(s.cache, Entry(added, 1), key);
    }
    PendingIsFound(s.cache, 0, key);
    PendingIsFound(t.cache, 0, key);
  }

  lemma ClearCachedClears(s: System, cleared: Pair, key: Pair)
    requires Valid(s) && key in s.db && s.writing.None?
    ensures var t := Step(s, ClearCached(cleared));
      Valid(t) && Pending(t.cache, 0, key) == if cleared == key then 0 else Pending(s.cache, 0, key)
  {
    var i := Find(s.cache, cleared);
    var t := Step(s, ClearCached(cleared));
    if i < |s.cache| { FindUpdated(s.cache, i, Entry(cleared, 0), key); }
    PendingIsFound(s.cache, 0, key);
    PendingIsFound(t.cache, 0, key);
  }

  /** Writing an entry moves its count from the cache to the database. */
  lemma WriteRowMoves(s: System, key: Pair)
    requires Valid(s) && key in s.db && IsEnabled(s, WriteRow)
    ensures var t := Step(s, WriteRow);
      && Valid(t) && key in t.db && Value(t, key) == Value(s, key)
      && Pending(t.cache, From(t), key) <= Pending(s.cache, From(s), key)
  {
  }

  // Whole runs.

  /** The bounds of a counter: at least what was added since the last step of a clear, at
      most what was added since the cache was last cleared before the database was. */
  datatype Bounds = Bounds(low: nat, sinceBegin: nat, high: nat)

  function Bound(b: Bounds, a: Action, key: Pair): Bounds {
    match a
    case Add(k) => if k == key then Bounds(b.low + 1, b.sinceBegin + 1, b.high + 1) else b
    case ClearCached(k) => if k == key then b.(low := 0, sinceBegin := 0) else b
    case ClearRow(k) => if k == key then b.(low := 0, high := b.sinceBegin) else b
    case _ => b
  }

  ghost predicate Within(s: System, key: Pair, b: Bounds)
    requires From(s) <= |s.cache|
  {
    key in s.db && b.low <= Value(s, key) <= b.high && Pending(s.cache, From(s), key) <= b.sinceBegin
  }

  /** Every step keeps a counter within its bounds. */
  lemma StepKeepsBounds(s: System, a: Action, key: Pair, b: Bounds)
    requires Valid(s) && IsEnabled(s, a) && Within(s, key, b)
    ensures Valid(Step(s, a)) && Within(Step(s, a), key, Bound(b, a, key))
  {
    match a
    case Add(k) => AddCounts(s, k, key);
    case ClearCached(k) => ClearCachedClears(s, k, key);
    case ClearRow(_) =>
    case StartWriting =>
    case WriteRow => WriteRowMoves(s, key);
    case FinishWriting =>
  }

  /** `t` is reached from `s` by the steps, in an order that the mutexes allow. */
  ghost predicate Reaches(s: System, steps: seq<Action>, t: System)
    decreases |steps|
  {
    if steps == [] then t == s
    else IsEnabled(s, steps[0]) && Reaches(Step(s, steps[0]), steps[1..], t)
  }

  function BoundAll(b: Bounds, steps: seq<Action>, key: Pair): Bounds
    decreases |steps|
  {
    if steps == [] then b else BoundAll(Bound(b, steps[0], key), steps[1..], key)
  }

  lemma {:induction false} RunKeepsBounds(s: System, steps: seq<Action>, t: System, key: Pair, b: Bounds)
    requires Valid(s) && Within(s, key, b) && Reaches(s, steps, t)
    ensures Valid(t) && Within(t, key, BoundAll(b, steps, key))
    decreases |steps|
  {
    if steps != [] {
      StepKeepsBounds(s, steps[0], key, b);
      RunKeepsBounds(Step(s, steps[0]), steps[1..], t, key, Bound(b, steps[0], key));
    }
  }

  // The bounds in terms of the steps.

  function Adds(steps: seq<Action>, key: Pair): nat {
    if steps == [] then 0
    else Adds(steps[..|steps| - 1], key) + if steps[|steps| - 1] == Add(key) then 1 else 0
  }

  /** No step of a clear of the pair. */
  predicate NoClears(steps: seq<Action>, key: Pair) {
    forall i :: 0 <= i < |steps| ==> steps[i] != ClearCached(key) && steps[i] != ClearRow(key)
  }

  lemma {:induction false} BoundAppend(b: Bounds, steps: seq<Action>, more: seq<Action>, key: Pair)
    ensures BoundAll(b, steps + more, key) == BoundAll(BoundAll(b, steps, key), more, key)
    decreases |steps|
  {
    if steps == [] {
      assert steps + more == more;
    } else {
      assert (steps + more)[1..] == steps[1..] + more;
      BoundAppend(Bound(b, steps[0], key), steps[1..], more, key);
    }
  }

  lemma BoundOne(b: Bounds, a: Action, key: Pair)
    ensures BoundAll(b, [a], key) == Bound(b, a, key)
  {
    assert [a][1..] == [];
  }

  lemma {:induction false} BoundsWithoutClears(b: Bounds, steps: seq<Action>, key: Pair)
    requires NoClears(steps, key)
    ensures var n := Adds(steps, key);
      BoundAll(b, steps, key) == Bounds(b.low + n, b.sinceBegin + n, b.high + n)
    decreases |steps|
  {
    if steps != [] {
      var n := |steps| - 1;
      assert steps == steps[..n] + [steps[n]];
      BoundsWithoutClears(b, steps[..n], key);
      BoundAppend(b, steps[..n], [steps[n]], key);
      BoundOne(BoundAll(b, steps[..n], key), steps[n], key);
    }
  }

  /** Since a clear has begun at most the adds have come in, whatever other clears do. */
  lemma {:induction false} SinceBeginGrows(b: Bounds, steps: seq<Action>, key: Pair)
    ensures BoundAll(b, steps, key).sinceBegin <= b.sinceBegin + Adds(steps, key)
    decreases |steps|
  {
    if steps != [] {
      var n := |steps| - 1;
      assert steps == steps[..n] + [steps[n]];
      SinceBeginGrows(b, steps[..n], key);
      BoundAppend(b, steps[..n], [steps[n]], key);
      BoundOne(BoundAll(b, steps[..n], key), steps[n], key);
    }
  }

  /** The bounds after a clear whose second step is the last of the pair. */
  lemma BoundsOfClear(b: Bounds, between: seq<Action>, after: seq<Action>, key: Pair)
    requires NoClears(after, key)
    ensures var r := BoundAll(b, [ClearCached(key)] + between + [ClearRow(key)] + after, key);
      r.low == Adds(after, key) && r.high <= Adds(between, key) + Adds(after, key)
  {
    var c := Bound(b, ClearCached(key), key);
    var d := BoundAll(c, between, key);
    var e := Bound(d, ClearRow(key), key);
    SinceBeginGrows(c, between, key);
    BoundsWithoutClears(e, after, key);
    BoundOne(b, ClearCached(key), key);
    BoundOne(d, ClearRow(key), key);
    BoundAppend(b, [ClearCached(key)], between, key);
    BoundAppend(b, [ClearCached(key)] + between, [ClearRow(key)], key);
    BoundAppend(b, [ClearCached(key)] + between + [ClearRow(key)], after, key);
  }

  /** Anything, then the two steps of a clear with any steps between them, also of other
      clears of the pair, then no more of clears: what is displayed is at least the adds
      since the clear ended and at most the adds since it began. */
  lemma DisplayedAfterClear(s: System, before: seq<Action>, between: seq<Action>, after: seq<Action>, t: System,
      key: Pair)
    requires Valid(s) && key in s.db && NoClears(after, key)
    requires Reaches(s, before + ([ClearCached(key)] + between + [ClearRow(key)] + after), t) && t.writing.None?
    ensures key in t.db && AtMostOneEach(t.cache)
    ensures Adds(after, key) <= Displayed(t, key) <= Adds(between, key) + Adds(after, key)
  {
    var b := Bounds(0, Pending(s.cache, From(s), key), Value(s, key));
    var clear := [ClearCached(key)] + between + [ClearRow(key)] + after;
    RunKeepsBounds(s, before + clear, t, key, b);
    BoundAppend(b, before, clear, key);
    BoundsOfClear(BoundAll(b, before, key), between, after, key);
    DisplayedIsValue(t, key);
  }

  /** Without clears the display is exact. */
  lemma DisplayedWithoutClears(s: System, steps: seq<Action>, t: System, key: Pair)
    requires Valid(s) && key in s.db && NoClears(steps, key) && Reaches(s, steps, t) && t.writing.None?
    ensures key in t.db && Displayed(t, key) == Value(s, key) + Adds(steps, key)
  {
    var b := Bounds(Value(s, key), Pending(s.cache, From(s), key), Value(s, key));
    RunKeepsBounds(s, steps, t, key, b);
    BoundsWithoutClears(b, steps, key);
    DisplayedIsValue(t, key);
  }

  /** In a run where nothing is added during the clear, the display is exact: the adds
      since the clear. */
  lemma DisplayedInSequence(s: System, before: seq<Action>, between: seq<Action>, after: seq<Action>, t: System,
      key: Pair)
    requires Valid(s) && key in s.db && NoClears(after, key) && Adds(between, key) == 0
    requires Reaches(s, before + ([ClearCached(key)] + between + [ClearRow(key)] + after), t) && t.writing.None?
    ensures key in t.db && Displayed(t, key) == Adds(after, key)
  {
    DisplayedAfterClear(s, before, between, after, t, key);
  }
}
