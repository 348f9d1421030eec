/** The shuffle of both games, `swap(a[i], a[rand() % i])` for falling `i`
    (src/Splendor.hpp, src/Uno.hpp), for every outcome of `rand()`. */
module Shuffle {

  /** `rand() % i`. */
  function Pick(r: nat, i: nat): (j: nat)
    requires i > 0
    ensures j < i
  {
    r % i
  }

  lemma SmallPick(r: nat, i: nat)
    requires r < i
    ensures Pick(r, i) == r
  {
  }

  function Swap<T>(s: seq<T>, i: nat, j: nat): (r: seq<T>)
    requires i < |s| && j < |s|
    ensures |r| == |s|
  {
    s[i := s[j]][j := s[i]]
  }

  /** The slots `top`, `top - 1`, ..., `stop + 1` are swapped in turn, `draw(i)` being
      the number drawn for slot `i`. */
  function Shuffled<T>(s: seq<T>, top: nat, stop: nat, draw: nat -> nat): (r: seq<T>)
    requires top < |s| || top <= stop
    ensures |r| == |s|
    decreases top
  {
    if top <= stop then s else Shuffled(Swap(s, top, Pick(draw(top), top)), top - 1, stop, draw)
  }

  method ShuffleInPlace<T>(a: array<T>, top: nat, stop: nat, draw: nat -> nat)
    requires top < a.Length || top <= stop
    modifies a
    ensures a[..] == Shuffled(old(a[..]), top, stop, draw)
  {
    var i: nat := top;
    while i > stop
      invariant i <= top
      invariant Shuffled(a[..], i, stop, draw) == Shuffled(old(a[..]), top, stop, draw)
    {
      var j := Pick(draw(i), i);
      a[i], a[j] := a[j], a[i];
      i := i - 1;
    }
  }

  // A shuffle permutes.

  lemma SwapKeeps<T>(s: seq<T>, i: nat, j: nat)
    requires i < |s| && j < |s|
    ensures multiset(Swap(s, i, j)) == multiset(s)
  {
  }

  lemma {:induction false} ShuffleKeeps<T>(s: seq<T>, top: nat, stop: nat, draw: nat -> nat)
    requires top < |s| || top <= stop
    ensures multiset(Shuffled(s, top, stop, draw)) == multiset(s)
    decreases top
  {
    if top > stop {
      var j := Pick(draw(top), top);
      SwapKeeps(s, top, j);
      ShuffleKeeps(Swap(s, top, j), top - 1, stop, draw);
    }
  }

  /** Slots above `top` are left alone. */
  lemma {:induction false} ShuffleLeaves<T>(s: seq<T>, top: nat, stop: nat, draw: nat -> nat, k: nat)
    requires top < k < |s|
    ensures Shuffled(s, top, stop, draw)[k] == s[k]
    decreases top
  {
    if top > stop {
      ShuffleLeaves(Swap(s, top, Pick(draw(top), top)), top - 1, stop, draw, k);
    }
  }

  // The permutation is a single cycle.

  function Indices(n: nat): (s: seq<nat>)
    ensures |s| == n && forall k :: 0 <= k < n ==> s[k] == k
  {
    seq(n, k requires 0 <= k < n => k)
  }

  /** Where each slot gets its element from. */
  function Origin(n: nat, draw: nat -> nat): (p: seq<nat>)
    ensures |p| == n
  {
    if n == 0 then [] else Shuffled(Indices(n), n - 1, 0, draw)
  }

  /** `s` rearranged: slot `k` holds the element that was in slot `p[k]`. */
  predicate Rearranges<T(==)>(r: seq<T>, s: seq<T>, p: seq<nat>) {
    |r| == |p| <= |s| && forall k :: 0 <= k < |p| ==> p[k] < |s| && r[k] == s[p[k]]
  }

  lemma {:induction false} ShuffleRearranges<T>(s: seq<T>, t: seq<T>, p: seq<nat>, top: nat, draw: nat -> nat)
    requires top < |s| && Rearranges(s, t, p) && |s| == |t|
    ensures Rearranges(Shuffled(s, top, 0, draw), t, Shuffled(p, top, 0, draw))
    decreases top
  {
    if top > 0 {
      var j := Pick(draw(top), top);
      ShuffleRearranges(Swap(s, top, j), t, Swap(p, top, j), top - 1, draw);
    }
  }

  /** Any deck is rearranged in the same way. */
  lemma OriginIsUniversal<T>(s: seq<T>, draw: nat -> nat)
    requires s != []
    ensures Rearranges(Shuffled(s, |s| - 1, 0, draw), s, Origin(|s|, draw))
  {
    ShuffleRearranges(s, s, Indices(|s|), |s| - 1, draw);
  }

  ghost predicate Lists(c: seq<nat>, n: nat) {
    && |c| == n
    && (forall t :: 0 <= t < n ==> c[t] < n)
    && (forall t, u :: 0 <= t < u < n ==> c[t] != c[u])
    && (forall k: nat :: k < n ==> k in c)
  }

  function After(t: nat, n: nat): nat {
    if t + 1 < n then t + 1 else 0
  }

  ghost predicate Follows(c: seq<nat>, p: seq<nat>)
    requires Lists(c, |p|)
  {
    forall t :: 0 <= t < |c| ==> p[c[t]] == c[After(t, |c|)]
  }

  /** `c` lists all slots once, in the order in which the elements move round. */
  ghost predicate IsCycle(c: seq<nat>, p: seq<nat>) {
    Lists(c, |p|) && Follows(c, p)
  }

  function Insert<T>(s: seq<T>, t: nat, x: T): (r: seq<T>)
    requires t <= |s|
    ensures |r| == |s| + 1
    ensures forall k :: 0 <= k < |r| ==> r[k] == if k < t then s[k] else if k == t then x else s[k - 1]
  {
    s[..t] + [x] + s[t..]
  }

  lemma Place(c: seq<nat>, n: nat, k: nat) returns (t: nat)
    requires Lists(c, n) && k < n
    ensures t < n && c[t] == k
  {
    assert k in c;
    t :| t < n && c[t] == k;
  }

  lemma InsertLists(c: seq<nat>, t: nat, n: nat)
    requires Lists(c, n) && t <= n
    ensures Lists(Insert(c, t, n), n + 1)
  {
    var d := Insert(c, t, n);
    forall k: nat | k < n + 1 ensures k in d {
      if k == n {
        assert d[t] == n;
      } else {
        var u := Place(c, n, k);
        assert d[if u < t then u else u + 1] == k;
      }
    }
  }

  /** Slot `n` taken into the cycle `q` before `j`. */
  ghost predicate Extends(p: seq<nat>, q: seq<nat>, n: nat, j: nat) {
    && |q| == n && |p| == n + 1 && p[n] == j
    && forall k :: 0 <= k < n ==> p[k] == if q[k] == j then n else q[k]
  }

  lemma InsertFollows(c: seq<nat>, t: nat, p: seq<nat>, q: seq<nat>, n: nat, j: nat)
    requires IsCycle(c, q) && Extends(p, q, n, j) && t < n && c[t] == j
    ensures IsCycle(Insert(c, t, n), p)
  {
    var d := Insert(c, t, n);
    InsertLists(c, t, n);
    forall u | 0 <= u < n + 1 ensures p[d[u]] == d[After(u, n + 1)] {
      if u < t {
        assert q[c[u]] == c[u + 1];
      } else if u > t {
        assert q[c[u - 1]] == c[After(u - 1, n)];
      }
    }
  }

  lemma {:induction false} ShufflePrefix<T>(s: seq<T>, x: T, top: nat, draw: nat -> nat)
    requires top < |s|
    ensures Shuffled(s + [x], top, 0, draw) == Shuffled(s, top, 0, draw) + [x]
    decreases top
  {
    if top > 0 {
      var j := Pick(draw(top), top);
      assert Swap(s + [x], top, j) == Swap(s, top, j) + [x];
      ShufflePrefix(Swap(s, top, j), x, top - 1, draw);
    }
  }

  lemma OriginInRange(n: nat, draw: nat -> nat)
    requires n > 0
    ensures forall k :: 0 <= k < n ==> Origin(n, draw)[k] < n
  {
    OriginIsUniversal(Indices(n), draw);
  }

  /** One more slot: the first swap takes it into the cycle of the others. */
  lemma OriginExtends(n: nat, draw: nat -> nat)
    requires n > 0
    ensures Extends(Origin(n + 1, draw), Origin(n, draw), n, Pick(draw(n), n))
  {
    var j := Pick(draw(n), n);
    var s := Indices(n + 1);
    var b := Swap(s, n, j);
    var q := Origin(n, draw);
    ShuffleRearranges(b, b, s, n - 1, draw);
    assert s == Indices(n) + [n];
    ShufflePrefix(Indices(n), n, n - 1, draw);
    assert Shuffled(s, n - 1, 0, draw) == q + [n];
    OriginInRange(n, draw);
    forall k | 0 <= k < n ensures Origin(n + 1, draw)[k] == if q[k] == j then n else q[k] {
      assert (q + [n])[k] == q[k];
    }
  }

  /** Whatever is drawn, the shuffle of `n` slots is one cycle through all of them. */
  lemma {:induction false} ShuffleIsOneCycle(n: nat, draw: nat -> nat) returns (c: seq<nat>)
    requires n > 0
    ensures IsCycle(c, Origin(n, draw))
  {
    if n == 1 {
      c := [0];
      assert Origin(1, draw) == [0];
    } else {
      var d := ShuffleIsOneCycle(n - 1, draw);
      OriginExtends(n - 1, draw);
      var j := Pick(draw(n - 1), n - 1);
      var t := Place(d, n - 1, j);
      InsertFollows(d, t, Origin(n, draw), Origin(n - 1, draw), n - 1, j);
      c := Insert(d, t, n - 1);
    }
  }

  /** In a deck of two or more different cards, no slot keeps its card. */
  lemma NoSlotKeepsItsCard<T>(s: seq<T>, draw: nat -> nat, k: nat)
    requires k < |s| && |s| >= 2
    requires forall i, j :: 0 <= i < j < |s| ==> s[i] != s[j]
    ensures Shuffled(s, |s| - 1, 0, draw)[k] != s[k]
  {
    var p := Origin(|s|, draw);
    var c := ShuffleIsOneCycle(|s|, draw);
    OriginIsUniversal(s, draw);
    var t := Place(c, |s|, k);
    assert p[k] == c[After(t, |c|)];
    assert p[k] != k;
  }
}
