/** Buying in a game of `Splendor` (src/Splendor.hpp): it keeps the invariant, and only
    the buyer can win by it. */
module SplendorBuying {
  import opened SplendorState
  import opened SplendorRules
  import opened SplendorMines
  import opened SplendorCoupons
  import opened SplendorAllies
  import opened SplendorInvariant

  /** `q` is `p` with coupon `c` paid and taken; a reserved one has left the hand. */
  ghost predicate IsBuyer(p: Player, q: Player, c: Coupon)
    requires HasCounts(p) && IsCard(c)
  {
    q == Bought(p, c).(reserved := q.reserved)
  }

  /** The game after the purchase, before the allies look. */
  ghost predicate Midway(g: Game, mid: Game, t: nat, q: Player)
    requires t < |g.players|
  {
    mid.players == PassTurn(g.players[t := q], t) && mid.allies == g.allies
  }

  lemma BuyerPays(g: Game, t: nat, c: Coupon, q: Player)
    requires Shaped(g) && t < |g.players| && IsCard(c) && Affordable(g.players[t], c) && IsBuyer(g.players[t], q, c)
    ensures MinesTraded(g, Receive(c, g.players[t], g.bank), t, q)
    ensures Total(q.mineCount) <= Total(g.players[t].mineCount)
    ensures forall m :: 0 <= m < 6 ==> q.mineCount[m] >= 0
  {
    AffordableIsPayable(c, g.players[t]);
    forall m | 0 <= m < 6 ensures 0 <= Paid(c, g.players[t], m) {
      PaidIsHeld(c, g.players[t], m);
    }
  }

  lemma MidwayPlayers(g: Game, mid: Game, t: nat, q: Player)
    requires HasArrays(g) && |g.players| >= 2 && DistinctIds(g.players) && HasTurn(g.players, t)
    requires HasCounts(q) && q.id == g.players[t].id && Midway(g, mid, t, q) && Total(q.mineCount) <= 10
    ensures |mid.players| == |g.players| && DistinctIds(mid.players)
    ensures forall j :: 0 <= j < |mid.players| ==> HasCounts(mid.players[j])
    ensures forall j :: 0 <= j < |mid.players| && j != t ==> SameButStatus(mid.players[j], g.players[j])
    ensures SameButStatus(mid.players[t], q)
    ensures HasTurn(mid.players, Next(t, |g.players|))
  {
    TurnOfOthers(g.players, t);
    PassTurnMoves(g.players[t := q], t);
    PassTurnKeeps(g.players[t := q], t);
    assert forall j :: 0 <= j < |mid.players| ==> mid.players[j].id == g.players[j].id;
  }

  /** The players after the allies looked: only the buyer's reputation has changed. */
  ghost predicate OnlyBuyerCredited(mid: Game, h: Game, t: nat)
    requires HasArrays(mid) && t < |mid.players|
  {
    && |h.players| == |mid.players| && |h.allies| == |mid.allies|
    && h.players[t] == Credited(mid.players[t], mid.allies)
    && (forall j :: 0 <= j < |mid.players| && j != t ==> h.players[j] == mid.players[j])
    && (forall k :: 0 <= k < |mid.allies| ==> h.allies[k] == AwardedTo(mid.allies[k], mid.players[t]))
  }

  lemma CreditedKeepsTurn(mid: Game, h: Game, t: nat, u: nat)
    requires HasArrays(mid) && t < |mid.players| && OnlyBuyerCredited(mid, h, t) && HasTurn(mid.players, u)
    ensures (forall j :: 0 <= j < |h.players| ==> HasCounts(h.players[j])) && HasTurn(h.players, u)
  {
    assert forall j :: 0 <= j < |h.players| ==> h.players[j] == mid.players[j].(reputation := h.players[j].reputation);
  }

  /** The buyer's reputation grows by the coupon and by the allies won. */
  lemma BuyerAdds(p: Player, q: Player, c: Coupon, final: Player, allies: seq<Ally>, awarded: seq<Ally>)
    requires HasCounts(p) && IsCard(c) && IsBuyer(p, q, c) && ReputationAdds(p, allies)
    requires |awarded| == |allies| && forall k :: 0 <= k < |allies| ==> |allies[k].condition| == 5
    requires forall k :: 0 <= k < |allies| ==> awarded[k] == AwardedTo(allies[k], q)
    requires final.coupons == q.coupons && final.id == q.id
    requires final.reputation == q.reputation + Bonus(q, allies, |allies|)
    ensures ReputationAdds(final, awarded)
  {
    WorthAppend(p.coupons, c);
    AwardsAdd(allies, awarded, q, q.id, |allies|);
  }

  lemma OtherAdds(p: Player, q: Player, allies: seq<Ally>, awarded: seq<Ally>)
    requires ReputationAdds(p, allies) && p.id != q.id && HasCounts(q)
    requires |awarded| == |allies| && forall k :: 0 <= k < |allies| ==> |allies[k].condition| == 5
    requires forall k :: 0 <= k < |allies| ==> awarded[k] == AwardedTo(allies[k], q)
    ensures ReputationAdds(p, awarded)
  {
    AwardsAdd(allies, awarded, q, p.id, |allies|);
  }

  lemma SameCounts(p: Player, q: Player, allies: seq<Ally>, k: nat)
    requires HasCounts(p) && HasCounts(q) && p.couponCount == q.couponCount && k <= |allies|
    requires forall j :: 0 <= j < |allies| ==> |allies[j].condition| == 5
    ensures SatisfiesNone(p, allies) <==> SatisfiesNone(q, allies)
  {
    assert forall j :: 0 <= j < |allies| ==> Satisfies(p, allies[j]) == Satisfies(q, allies[j]);
  }

  lemma {:induction false} SameBonus(p: Player, q: Player, allies: seq<Ally>, k: nat)
    requires HasCounts(p) && HasCounts(q) && p.couponCount == q.couponCount && k <= |allies|
    requires forall j :: 0 <= j < |allies| ==> |allies[j].condition| == 5
    ensures Bonus(p, allies, k) == Bonus(q, allies, k)
  {
    if k > 0 {
      SameBonus(p, q, allies, k - 1);
      assert Satisfies(p, allies[k - 1]) == Satisfies(q, allies[k - 1]);
    }
  }

  /** Nobody satisfies a free ally after the look-round. */
  lemma FreeAlliesStayFree(g: Game, mid: Game, h: Game, t: nat)
    requires Purchase(g, mid.players, t) && mid.allies == g.allies && HasArrays(mid) && OnlyBuyerCredited(mid, h, t)
    ensures HasArrays(h.(bank := g.bank)) && NoneSatisfied(h.allies, h.players)
  {
    forall j | 0 <= j < |mid.players| && j != t ensures SatisfiesNone(mid.players[j], g.allies) {
      OthersSatisfyNone(g, mid.players, t, j);
    }
    NoneLeftSatisfied(g.allies, h.allies, mid.players, t);
    forall j | 0 <= j < |h.players| ensures SatisfiesNone(h.players[j], h.allies) {
      assert SatisfiesNone(mid.players[j], h.allies);
      SameCounts(mid.players[j], h.players[j], h.allies, 0);
    }
  }

  lemma BuyersAllies(allies: seq<Ally>, q: Player, r: Player)
    requires HasCounts(q) && SameButStatus(r, q) && forall k :: 0 <= k < |allies| ==> |allies[k].condition| == 5
    ensures forall k :: 0 <= k < |allies| ==> AwardedTo(allies[k], r) == AwardedTo(allies[k], q)
    ensures Credited(r, allies).reputation == q.reputation + Bonus(q, allies, |allies|)
  {
    SameBonus(r, q, allies, |allies|);
    assert forall k :: 0 <= k < |allies| ==> Satisfies(r, allies[k]) == Satisfies(q, allies[k]);
  }

  lemma AccountsAfterBuying(g: Game, mid: Game, h: Game, t: nat, q: Player, c: Coupon)
    requires Purchase(g, mid.players, t) && mid.allies == g.allies && HasArrays(mid) && HasArrays(h)
    requires OnlyBuyerCredited(mid, h, t) && Accounted(g) && DistinctIds(g.players)
    requires IsPlayer(g.players[t]) && IsCard(c) && IsBuyer(g.players[t], q, c) && SameButStatus(mid.players[t], q)
    ensures Accounted(h)
  {
    FreeAlliesStayFree(g, mid, h, t);
    BuyersAllies(g.allies, q, mid.players[t]);
    forall j | 0 <= j < |h.players| ensures CountsAreTallies(h.players[j]) && ReputationAdds(h.players[j], h.allies) {
      if j == t {
        BoughtIsCounted(g.players[t], c);
        BuyerAdds(g.players[t], q, c, h.players[t], g.allies, h.allies);
      } else {
        assert g.players[j].id != q.id;
        OtherAdds(g.players[j], q, g.allies, h.allies);
      }
    }
  }

  lemma BuyerReplaces(g: Game, mid: Game, h: Game, t: nat, q: Player)
    requires Purchase(g, mid.players, t) && mid.allies == g.allies && HasArrays(mid) && OnlyBuyerCredited(mid, h, t)
    requires SameButStatus(mid.players[t], q) && q.id == g.players[t].id
    ensures Replaced(g.players, h.players, t, q)
  {
  }

  lemma AlliesStayAllies(mid: Game, h: Game, t: nat)
    requires HasArrays(mid) && t < |mid.players| && OnlyBuyerCredited(mid, h, t)
    requires forall k :: 0 <= k < |mid.allies| ==> IsAlly(mid.allies[k])
    ensures forall k :: 0 <= k < |h.allies| ==> IsAlly(h.allies[k])
  {
  }

  lemma CheckOnlyLooksAtPlayers(g: Game, mid: Game)
    requires HasArrays(g) && HasArrays(mid) && mid.allies == g.allies
    ensures CheckAllies(mid).allies == CheckAllies(g.(players := mid.players)).allies
    ensures CheckAllies(mid).players == CheckAllies(g.(players := mid.players)).players
  {
  }

  lemma TurnPassed(players: seq<Player>, t: nat)
    requires (forall i :: 0 <= i < |players| ==> HasCounts(players[i]))
    requires t < |players| && |players| >= 2 && HasTurn(players, Next(t, |players|))
    ensures TurnIn(players, t) == Next(t, |players|)
  {
    assert IsIdle(players[t]);
  }

  lemma BeforeAllies(g: Game, mid: Game, t: nat, q: Player, box: multiset<Coupon>, supply: seq<int>)
    requires Inv(g, box, supply, t) && IsPlayer(q) && q.id == g.players[t].id && Total(q.mineCount) <= 10
    requires mid.players == PassTurn(g.players[t := q], t) && mid.allies == g.allies && |mid.bank| == 6
    ensures Purchase(g, mid.players, t) && HasArrays(mid) && SameButStatus(mid.players[t], q)
    ensures HasTurn(mid.players, Next(t, |g.players|))
  {
    MidwayPlayers(g, mid, t, q);
  }

  lemma AlliesLook(g: Game, mid: Game, t: nat)
    requires Purchase(g, mid.players, t) && HasArrays(mid) && mid.allies == g.allies
    ensures OnlyBuyerCredited(mid, CheckAllies(mid), t)
  {
    OnlyBuyerIsAwarded(g, mid.players, t);
    CheckOnlyLooksAtPlayers(g, mid);
  }

  lemma BuyerPassesTurn(mid: Game, h: Game, t: nat)
    requires HasArrays(mid) && t < |mid.players| && |mid.players| >= 2 && OnlyBuyerCredited(mid, h, t)
    requires HasTurn(mid.players, Next(t, |mid.players|))
    ensures (forall j :: 0 <= j < |h.players| ==> HasCounts(h.players[j])) && HasTurn(h.players, TurnIn(h.players, t))
  {
    CreditedKeepsTurn(mid, h, t, Next(t, |mid.players|));
    TurnPassed(h.players, t);
  }

  lemma OnlyBuyersReputation(g: Game, mid: Game, h: Game, t: nat, q: Player, c: Coupon)
    requires Purchase(g, mid.players, t) && mid.allies == g.allies && HasArrays(mid) && OnlyBuyerCredited(mid, h, t)
    requires HasCounts(q) && IsCard(c) && IsBuyer(g.players[t], q, c) && SameButStatus(mid.players[t], q)
    ensures OthersKeepReputation(g, h, t)
    ensures h.players[t].reputation == g.players[t].reputation + c.reputation + Bonus(q, g.allies, |g.allies|)
  {
    BuyersAllies(g.allies, q, mid.players[t]);
  }

  lemma FinishPurchase(g: Game, mid: Game, h: Game, t: nat, q: Player, c: Coupon, box: multiset<Coupon>,
      supply: seq<int>)
    requires Inv(g, box, supply, t) && Purchase(g, mid.players, t) && mid.allies == g.allies && HasArrays(mid)
    requires IsCard(c) && IsBuyer(g.players[t], q, c) && IsPlayer(q) && SameButStatus(mid.players[t], q)
    requires OnlyBuyerCredited(mid, h, t) && HasTurn(mid.players, Next(t, |g.players|))
    requires MinesTraded(g, h.bank, t, q) && CouponsTraded(g, h.market, h.deck, t, q)
    ensures Moves(g, h, g.players[t].id, box, supply, t) && OthersKeepReputation(g, h, t)
    ensures h.players[t].reputation == g.players[t].reputation + c.reputation + Bonus(q, g.allies, |g.allies|)
  {
    BuyerReplaces(g, mid, h, t, q);
    AlliesStayAllies(mid, h, t);
    TradeConserves(g, h, t, q, box, supply);
    AccountsAfterBuying(g, mid, h, t, q, c);
    BuyerPassesTurn(mid, h, t);
    OnlyBuyersReputation(g, mid, h, t, q, c);
  }

  /** A purchase by the player with the turn keeps the invariant, passes the turn on, and
      leaves the reputation of all others as it was. */
  lemma PurchaseMoves(g: Game, table: Game, t: nat, q: Player, c: Coupon, box: multiset<Coupon>, supply: seq<int>)
    requires Inv(g, box, supply, t) && g.players[t].status == Action
    requires IsCard(c) && Affordable(g.players[t], c) && IsBuyer(g.players[t], q, c) && IsPlayer(q)
    requires table == g.(bank := Receive(c, g.players[t], g.bank), market := table.market, deck := table.deck)
    requires CouponsTraded(g, table.market, table.deck, t, q)
    ensures var h := AfterBuying(table, t, q);
      && Moves(g, h, g.players[t].id, box, supply, t) && OthersKeepReputation(g, h, t)
      && h.players[t].reputation == g.players[t].reputation + c.reputation + Bonus(q, g.allies, |g.allies|)
  {
    var mid := table.(players := PassTurn(g.players[t := q], t));
    BuyerPays(g, t, c, q);
    BeforeAllies(g, mid, t, q, box, supply);
    AlliesLook(g, mid, t);
    FinishPurchase(g, mid, CheckAllies(mid), t, q, c, box, supply);
  }
}
