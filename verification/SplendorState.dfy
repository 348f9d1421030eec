/** The state of a game of `Splendor` (src/Splendor.hpp). */
module SplendorState {

  /** COPPER, DIAMOND, EMERALD, IRON, NETHERITE and GOLD, by number. */
  type Mine = m: nat | m < 6
  const GOLD: Mine := 5

  datatype Status = Waiting | Action | NeedReturnMine

  datatype Coupon = Coupon(reputation: int, costs: seq<int>, kind: nat, level: nat, idx: int)

  datatype Ally = Ally(reputation: int, condition: seq<int>, idx: int, owner: int, owned: bool)

  datatype Player = Player(id: int, coupons: seq<Coupon>, reserved: seq<Coupon>, couponCount: seq<int>,
                           mineCount: seq<int>, reputation: int, status: Status)

  /** The players are in the order in which the map of players is iterated. */
  datatype Game = Game(bank: seq<int>, market: seq<Coupon>, deck: seq<Coupon>, allies: seq<Ally>, players: seq<Player>)

  function Zeros(n: nat): (s: seq<int>)
    ensures |s| == n && forall i :: 0 <= i < n ==> s[i] == 0
  {
    seq(n, _ => 0)
  }

  /** `Coupon::empty`. */
  function Empty(level: nat): Coupon {
    Coupon(-1, Zeros(5), GOLD, level, 0)
  }

  predicate IsEmpty(c: Coupon) {
    c.reputation == -1
  }

  // Shapes.

  predicate HasCounts(p: Player) {
    |p.couponCount| == 5 && |p.mineCount| == 6
  }

  /** The arrays have their lengths. */
  predicate HasArrays(g: Game) {
    && |g.bank| == 6
    && (forall i :: 0 <= i < |g.allies| ==> |g.allies[i].condition| == 5)
    && (forall i :: 0 <= i < |g.players| ==> HasCounts(g.players[i]))
  }

  /** A card of the box. */
  predicate IsCard(c: Coupon) {
    && c.reputation >= 0 && c.kind < 5 && 1 <= c.level <= 3 && c.idx > 0
    && |c.costs| == 5 && forall m :: 0 <= m < 5 ==> c.costs[m] >= 0
  }

  predicate AreCards(s: seq<Coupon>) {
    forall i :: 0 <= i < |s| ==> IsCard(s[i])
  }

  /** Four slots for each level. */
  function SlotLevel(i: nat): nat {
    if i < 4 then 1 else if i < 8 then 2 else 3
  }

  predicate IsSlot(c: Coupon, level: nat) {
    c.level == level && (IsCard(c) || c == Empty(level))
  }

  predicate IsMarket(market: seq<Coupon>) {
    |market| == 12 && forall i :: 0 <= i < 12 ==> IsSlot(market[i], SlotLevel(i))
  }

  predicate IsAlly(a: Ally) {
    a.reputation > 0 && |a.condition| == 5
  }

  predicate IsPlayer(p: Player) {
    && HasCounts(p)
    && AreCards(p.coupons) && AreCards(p.reserved) && |p.reserved| <= 3
    && (forall m :: 0 <= m < 6 ==> p.mineCount[m] >= 0)
  }

  predicate DistinctIds(players: seq<Player>) {
    forall i, j :: 0 <= i < j < |players| ==> players[i].id != players[j].id
  }

  predicate Shaped(g: Game) {
    && |g.bank| == 6 && IsMarket(g.market) && AreCards(g.deck)
    && (forall m :: 0 <= m < 6 ==> g.bank[m] >= 0)
    && (forall i :: 0 <= i < |g.allies| ==> IsAlly(g.allies[i]))
    && 2 <= |g.players| <= 4 && DistinctIds(g.players)
    && (forall i :: 0 <= i < |g.players| ==> IsPlayer(g.players[i]))
  }
}
