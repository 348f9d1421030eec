/** Where the coupons are (src/Splendor.hpp). */
module SplendorCoupons {
  import opened Multisets
  import opened SplendorState
  import opened SplendorRules

  // Counting coupons.

  function One(c: Coupon): multiset<Coupon> {
    if IsEmpty(c) then multiset{} else multiset{c}
  }

  /** The coupons lying in the slots. */
  function InPlay(market: seq<Coupon>): multiset<Coupon> {
    if market == [] then multiset{} else InPlay(market[..|market| - 1]) + One(market[|market| - 1])
  }

  function Hand(p: Player): multiset<Coupon> {
    multiset(p.coupons) + multiset(p.reserved)
  }

  function Hands(players: seq<Player>): multiset<Coupon> {
    if players == [] then multiset{} else Hands(players[..|players| - 1]) + Hand(players[|players| - 1])
  }

  /** All coupons of the game: on the table, in the decks, reserved and bought. */
  function AllCoupons(g: Game): multiset<Coupon> {
    InPlay(g.market) + multiset(g.deck) + Hands(g.players)
  }

  lemma {:induction false} InPlayUpdate(market: seq<Coupon>, i: nat, c: Coupon)
    requires i < |market|
    ensures InPlay(market[i := c]) + One(market[i]) == InPlay(market) + One(c)
    decreases |market|
  {
    var n := |market| - 1;
    if i < n {
      assert market[i := c][..n] == market[..n][i := c];
      InPlayUpdate(market[..n], i, c);
      var last := One(market[n]);
      assert InPlay(market[i := c]) == InPlay(market[..n][i := c]) + last;
      AddBoth(InPlay(market[..n][i := c]), One(market[i]), InPlay(market[..n]), One(c), last);
    } else {
      assert market[i := c][..n] == market[..n];
    }
  }

  lemma {:induction false} HandsUpdate(players: seq<Player>, i: nat, q: Player)
    requires i < |players|
    ensures Hands(players[i := q]) + Hand(players[i]) == Hands(players) + Hand(q)
    decreases |players|
  {
    var n := |players| - 1;
    if i < n {
      assert players[i := q][..n] == players[..n][i := q];
      HandsUpdate(players[..n], i, q);
      var last := Hand(players[n]);
      assert Hands(players[i := q]) == Hands(players[..n][i := q]) + last;
      AddBoth(Hands(players[..n][i := q]), Hand(players[i]), Hands(players[..n]), Hand(q), last);
    } else {
      assert players[i := q][..n] == players[..n];
    }
  }

  lemma {:induction false} HandsSame(players: seq<Player>, others: seq<Player>)
    requires |players| == |others|
    requires forall j :: 0 <= j < |players| ==>
               players[j].coupons == others[j].coupons && players[j].reserved == others[j].reserved
    ensures Hands(players) == Hands(others)
    decreases |players|
  {
    if players != [] { HandsSame(players[..|players| - 1], others[..|players| - 1]); }
  }

  function Erase<T>(s: seq<T>, k: nat): (r: seq<T>)
    requires k < |s|
  {
    s[..k] + s[k + 1..]
  }

  lemma EraseOne<T>(s: seq<T>, k: nat)
    requires k < |s|
    ensures multiset(Erase(s, k)) + multiset{s[k]} == multiset(s)
  {
    assert s == s[..k] + [s[k]] + s[k + 1..];
  }

  lemma AppendOne<T>(s: seq<T>, x: T)
    ensures multiset(s + [x]) == multiset(s) + multiset{x}
  {
  }

  // Filling slots.

  /** A slot is empty only when the deck of its level is. */
  ghost predicate EmptyOnlyAtEnd(market: seq<Coupon>, deck: seq<Coupon>) {
    forall i, j :: 0 <= i < |market| && 0 <= j < |deck| ==> IsEmpty(market[i]) ==> deck[j].level != market[i].level
  }

  lemma Exchange<T>(a: multiset<T>, x: multiset<T>, b: multiset<T>, y: multiset<T>, d: multiset<T>, e: multiset<T>)
    requires a + x == b + y && d + y == e
    ensures a + d + x == b + e
  {
    assert a + d + x == a + x + d;
    assert b + y + d == b + (d + y);
  }

  lemma FillKeepsCoupons(market: seq<Coupon>, deck: seq<Coupon>, slot: nat, level: nat)
    requires slot < |market| && !IsEmpty(market[slot]) && AreCards(deck)
    ensures var (m, d) := FillSlot(market, deck, slot, level);
      InPlay(m) + multiset(d) + multiset{market[slot]} == InPlay(market) + multiset(deck)
  {
    var k := FindLevel(deck, level);
    var taken := multiset{market[slot]};
    assert One(market[slot]) == taken;
    if k < |deck| {
      InPlayUpdate(market, slot, deck[k]);
      EraseOne(deck, k);
      Exchange(InPlay(market[slot := deck[k]]), taken, InPlay(market), multiset{deck[k]},
               multiset(Erase(deck, k)), multiset(deck));
    } else {
      InPlayUpdate(market, slot, Empty(level));
      Exchange(InPlay(market[slot := Empty(level)]), taken, InPlay(market), multiset{}, multiset(deck), multiset(deck));
    }
  }

  lemma FillKeepsShape(market: seq<Coupon>, deck: seq<Coupon>, slot: nat)
    requires IsMarket(market) && AreCards(deck) && slot < 12 && EmptyOnlyAtEnd(market, deck)
    ensures var (m, d) := FillSlot(market, deck, slot, market[slot].level);
      IsMarket(m) && AreCards(d) && EmptyOnlyAtEnd(m, d)
  {
    var level := market[slot].level;
    var k := FindLevel(deck, level);
    if k < |deck| {
      var d := Erase(deck, k);
      assert forall j :: 0 <= j < |d| ==> d[j] == deck[if j < k then j else j + 1];
    }
  }

  // The tally of bought coupons.

  function Tally(coupons: seq<Coupon>, kind: nat): nat {
    if coupons == [] then 0
    else Tally(coupons[..|coupons| - 1], kind) + if coupons[|coupons| - 1].kind == kind then 1 else 0
  }

  predicate CountsAreTallies(p: Player)
    requires |p.couponCount| == 5
  {
    forall kind :: 0 <= kind < 5 ==> p.couponCount[kind] == Tally(p.coupons, kind)
  }

  lemma TallyAppend(coupons: seq<Coupon>, c: Coupon, kind: nat)
    ensures Tally(coupons + [c], kind) == Tally(coupons, kind) + if c.kind == kind then 1 else 0
  {
    assert (coupons + [c])[..|coupons|] == coupons;
  }

  lemma BoughtIsCounted(p: Player, c: Coupon)
    requires IsPlayer(p) && IsCard(c) && CountsAreTallies(p)
    ensures CountsAreTallies(Bought(p, c))
  {
    forall kind | 0 <= kind < 5 ensures Bought(p, c).couponCount[kind] == Tally(p.coupons + [c], kind) {
      TallyAppend(p.coupons, c, kind);
    }
  }

  // Numbers.

  /** No two cards of the box have the same number. */
  ghost predicate NumbersDiffer(box: seq<Coupon>) {
    forall i, j :: 0 <= i < j < |box| ==> box[i].idx != box[j].idx
  }

  lemma {:induction false} Multiplicity(box: seq<Coupon>, c: Coupon)
    requires NumbersDiffer(box)
    ensures multiset(box)[c] <= 1
  {
    if box != [] {
      var rest := box[..|box| - 1];
      Multiplicity(rest, c);
      assert box == rest + [box[|box| - 1]];
      if c == box[|box| - 1] {
        assert c !in multiset(rest);
      }
    }
  }

  /** With the coupons of the box in play, a number names one coupon, in one place. */
  lemma NumberNamesCoupon(box: seq<Coupon>, all: multiset<Coupon>, c: Coupon, d: Coupon)
    requires NumbersDiffer(box) && all == multiset(box)
    ensures c in all && d in all && c.idx == d.idx ==> c == d && all[c] == 1
  {
    if c in all && d in all {
      Multiplicity(box, c);
      assert c in box && d in box;
    }
  }
}
